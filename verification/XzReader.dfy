/// The `.xz` reader of src/xz.rs: its loops over positions in the stream, each proved
/// against the grammar of XzFormat.
module XzReader {
  import opened Bytes
  import opened BcjX86
  import opened Bcj
  import opened XzFormat
  import Crc64

  /// Why a stream is refused.
  datatype Fault =
    | NotAStream | HeaderDamaged | UnknownCheck | NoIndex
    | VarintRunsOff | VarintNotMinimal | VarintTooLong
    | BlockHeaderRunsOff | BlockHeaderChecksum | ReservedFlags | HeaderPadding
    | PropertiesRunOff | Lzma2Properties | ChainEnd | EarlyLzma2 | TwoConverters | ConverterProperties | UnknownFilter
    | CompressedRunsOff | Lzma2Failed | CompressedSize | UncompressedSize | TooLong
    | BlockPadding | CheckRunsOff | CheckMismatch | Sha256
    | IndexCount | IndexRecord | IndexPadding | IndexChecksumRunsOff | IndexChecksum
    | FooterMissing | FooterMagic | FooterDamaged | FooterFlags | BackwardSize | TrailingBytes

  /// What the varint loop will have read, given the value of its first i bytes.
  ghost function VarintTotal(s: seq<byte>, i: nat, value: nat): Option<Parsed<nat>>
    requires i <= 9
  {
    match ParseVarintFrom(s, i)
    case None => None
    case Some(p) => Some(Parsed(value + Pow128(i) * p.value, p.rest))
  }

  /// `value |= (b & 0x7F) << (7 * i)`.
  function Grown(value: nat, b: byte, i: nat): nat { value + b % 0x80 * Pow128(i) }

  lemma VarintByte(s: seq<byte>, i: nat, value: nat)
    requires i < 9 && s != []
    ensures s[0] >= 0x80 ==> VarintTotal(s, i, value) == VarintTotal(s[1..], i + 1, Grown(value, s[0], i))
    ensures s[0] < 0x80 && i > 0 && s[0] == 0 ==> VarintTotal(s, i, value) == None
    ensures s[0] < 0x80 && !(i > 0 && s[0] == 0) ==>
              VarintTotal(s, i, value) == Some(Parsed(Grown(value, s[0], i), s[1..]))
  {
    hide Pow128;
    if s[0] >= 0x80 && ParseVarintFrom(s[1..], i + 1).Some? {
      Scaled(Pow128(i), s[0] % 0x80, ParseVarintFrom(s[1..], i + 1).value.value);
      NextPow128(i);
      assert s[0] - 0x80 == s[0] % 0x80;
    } else {
      Scaled(Pow128(i), s[0] % 0x80, 0);
    }
  }

  lemma Scaled(m: nat, low: nat, high: nat)
    ensures m * (low + 0x80 * high) == low * m + (0x80 * m) * high
  {
    Modular.Distribute(m, low, 0x80 * high);
    assert m * (0x80 * high) == (0x80 * m) * high;
  }

  lemma VarintRunsOut(s: seq<byte>, i: nat, value: nat)
    requires i == 9 || (i < 9 && s == [])
    ensures VarintTotal(s, i, value) == None
  {
  }

  lemma VarintBegins(s: seq<byte>)
    ensures VarintTotal(s, 0, 0) == ParseVarint(s)
  {
  }

  /// How a refused number fails: it never ends in nine bytes, the bytes end first, or its
  /// last byte is a superfluous zero.
  function VarintFault(s: seq<byte>): Fault {
    if |s| >= 9 && Continues(s, 9) then VarintTooLong
    else if |s| < 9 && Continues(s, |s|) then VarintRunsOff
    else VarintNotMinimal
  }

  predicate Continues(s: seq<byte>, n: nat)
    requires n <= |s|
  {
    forall k :: 0 <= k < n ==> s[k] >= 0x80
  }

  lemma FaultFound(s: seq<byte>, n: nat)
    requires n <= |s| && n <= 9 && Continues(s, n)
    ensures n == 9 ==> VarintFault(s) == VarintTooLong
    ensures n < 9 && n == |s| ==> VarintFault(s) == VarintRunsOff
    ensures n < 9 && n < |s| && s[n] < 0x80 ==> VarintFault(s) == VarintNotMinimal
    ensures n < 9 && n < |s| && s[n] >= 0x80 ==> Continues(s, n + 1)
  {
  }

  lemma NothingContinues(s: seq<byte>)
    ensures Continues(s, 0)
  {
  }

  /// The loop over at most nine bytes.
  method ReadVarint(buf: seq<byte>, at: nat) returns (r: Result<nat, Fault>, next: nat)
    requires at <= |buf|
    ensures at <= next <= |buf|
    ensures match r
            case Ok(v) => ParseVarint(buf[at..]) == Some(Parsed(v, buf[next..]))
            case Err(f) => ParseVarint(buf[at..]) == None && f == VarintFault(buf[at..])
  {
    var value: nat := 0;
    next := at;
    ghost var whole := buf[at..];
    VarintBegins(whole);
    NothingContinues(whole);
    hide ParseVarint, VarintTotal, Grown, VarintFault, Continues;
    for i := 0 to 9
      invariant next == at + i <= |buf|
      invariant VarintTotal(buf[next..], i, value) == ParseVarint(whole)
      invariant Continues(whole, i)
    {
      FaultFound(whole, i);
      if next >= |buf| {
        VarintRunsOut(buf[next..], i, value);
        return Err(VarintRunsOff), next;
      }
      var b := buf[next];
      VarintByte(buf[next..], i, value);
      assert whole[i] == b && buf[next..][1..] == buf[next + 1..];
      next := next + 1;
      value := Grown(value, b, i);
      if b < 0x80 {
        if i > 0 && b == 0 {
          return Err(VarintNotMinimal), next;
        }
        return Ok(value), next;
      }
    }
    FaultFound(whole, 9);
    VarintRunsOut(buf[next..], 9, value);
    return Err(VarintTooLong), next;
  }

  // ----- block headers -----

  method ReadOptVarint(present: bool, buf: seq<byte>, at: nat) returns (r: Result<Option<nat>, Fault>, next: nat)
    requires at <= |buf|
    ensures at <= next <= |buf|
    ensures match r
            case Ok(v) => ParseOptVarint(present, buf[at..]) == Some(Parsed(v, buf[next..]))
            case Err(_) => ParseOptVarint(present, buf[at..]) == None
  {
    if !present {
      return Ok(None), at;
    }
    var v;
    v, next := ReadVarint(buf, at);
    r := match v case Ok(n) => Ok(Some(n)) case Err(e) => Err(e);
  }

  /// One filter's id and properties.
  method ReadFilter(body: seq<byte>, at: nat) returns (r: Result<Filter, Fault>, next: nat)
    requires at <= |body|
    ensures at <= next <= |body|
    ensures match r
            case Ok(f) => ParseFilter(body[at..]) == Some(Parsed(f, body[next..]))
            case Err(_) => ParseFilter(body[at..]) == None
  {
    hide ParseVarint;
    var id, len;
    id, next := ReadVarint(body, at);
    if id.Err? {
      return Err(id.error), next;
    }
    len, next := ReadVarint(body, next);
    if len.Err? {
      return Err(len.error), next;
    }
    var propsEnd := next + len.value;
    if propsEnd > |body| {
      return Err(PropertiesRunOff), next;
    }
    assert body[next..][..len.value] == body[next..propsEnd] && body[next..][len.value..] == body[propsEnd..];
    return Ok(Filter(id.value, body[next..propsEnd])), propsEnd;
  }

  /// The filters in turn: the last must be LZMA2 and at most one converter may precede it.
  method ReadFilters(body: seq<byte>, at: nat, filters: nat) returns (r: Result<Chain, Fault>, next: nat)
    requires at <= |body| && filters >= 1
    ensures at <= next <= |body|
    ensures match r
            case Ok(c) => ParseChain(filters - 1, body[at..]) == Some(Parsed(c, body[next..]))
            case Err(_) => ParseChain(filters - 1, body[at..]) == None
  {
    hide ParseFilter;
    next := at;
    var converter: Option<Converter> := None;
    for index := 0 to filters
      invariant at <= next <= |body| && index < filters
      invariant converter.None? ==> index == 0 && next == at
      invariant converter.Some? ==>
                  index == 1 && ParseConverter(body[at..]) == Some(Parsed(converter.value, body[next..]))
    {
      var f;
      f, next := ReadFilter(body, next);
      if f.Err? {
        return Err(f.error), next;
      }
      var id, props := f.value.id, f.value.props;
      if index + 1 == filters {
        if id != LZMA2 {
          return Err(ChainEnd), next;
        }
        if |props| != 1 || props[0] > 40 {
          return Err(Lzma2Properties), next;
        }
        return Ok(Chain(converter, props[0])), next;
      }
      if id == LZMA2 {
        return Err(EarlyLzma2), next;
      }
      if converter.Some? {
        return Err(TwoConverters), next;
      }
      if |props| != 0 && |props| != 4 {
        return Err(ConverterProperties), next;
      }
      if FromId(id).None? {
        return Err(UnknownFilter), next;
      }
      Pow256Values();
      converter := Some(Converter(FromId(id).value, if |props| == 0 then None else Some(LeValue(props))));
    }
    assert false;
  }

  method ReadZeros(buf: seq<byte>, at: nat, end: nat) returns (zero: bool)
    requires at <= end <= |buf|
    ensures zero == AllZero(buf[at..end])
  {
    for i := at to end
      invariant forall j :: at <= j < i ==> buf[j] == 0
    {
      if buf[i] != 0 {
        assert buf[at..end][i - at] != 0;
        return false;
      }
    }
    return true;
  }

  method ReadFields(body: seq<byte>) returns (r: Result<Header, Fault>)
    requires |body| >= 2
    ensures match r
            case Ok(h) => ParseFields(body[1], body[2..]) == Some(h)
            case Err(_) => ParseFields(body[1], body[2..]) == None
  {
    hide ParseOptVarint, ParseChain, AllZero;
    var flags := body[1];
    var compressed, uncompressed, chain, at;
    compressed, at := ReadOptVarint(flags / 0x40 % 2 == 1, body, 2);
    if compressed.Err? {
      return Err(compressed.error);
    }
    uncompressed, at := ReadOptVarint(flags / 0x80 == 1, body, at);
    if uncompressed.Err? {
      return Err(uncompressed.error);
    }
    chain, at := ReadFilters(body, at, flags as nat % 4 + 1);
    if chain.Err? {
      return Err(chain.error);
    }
    var zero := ReadZeros(body, at, |body|);
    assert body[at..|body|] == body[at..];
    if !zero {
      return Err(HeaderPadding);
    }
    return Ok(Header(compressed.value, uncompressed.value, chain.value, |body| - at));
  }

  method ReadHeader(lib: Libraries, stream: seq<byte>, pos: nat) returns (r: Result<Header, Fault>, next: nat)
    requires pos < |stream| && stream[pos] != 0
    ensures pos <= next <= |stream|
    ensures r.Ok? ==> next == pos + RealSize(stream[pos])
    ensures match r
            case Ok(h) => ParseHeader(lib, stream[pos..]) == Some(Parsed(h, stream[next..]))
            case Err(_) => ParseHeader(lib, stream[pos..]) == None
  {
    hide ParseFields, LeValue;
    var n := RealSize(stream[pos]);
    if pos + n > |stream| {
      return Err(BlockHeaderRunsOff), pos;
    }
    var header := stream[pos..pos + n];
    var body := header[..n - 4];
    var s := stream[pos..];
    assert s[..n - 4] == body && s[n - 4..n] == header[n - 4..] && s[n..] == stream[pos + n..];
    if lib.crc32(body) != LeValue(header[n - 4..]) {
      return Err(BlockHeaderChecksum), pos;
    }
    if body[1] / 4 % 16 != 0 {
      return Err(ReservedFlags), pos;
    }
    var h := ReadFields(body);
    if h.Err? {
      return Err(h.error), pos;
    }
    return Ok(h.value), pos + n;
  }

  // ----- blocks -----

  /// No payload is there, or one that decodes to more than there is room for.
  ghost predicate PayloadRefused(lib: Libraries, h: Header, s: seq<byte>, room: nat) {
    match ParsePayload(lib, h, s)
    case None => true
    case Some(p) => Decodes(lib, p.value) && |lib.lzma2(p.value).value.bytes| > room
  }

  /// The LZMA2 payload, into a sink that holds one byte more than the output may still take.
  method ReadPayload(lib: Libraries, h: Header, stream: seq<byte>, at: nat, room: nat)
    returns (r: Result<seq<byte>, Fault>, next: nat)
    requires SelfDelimiting(lib) && at <= |stream|
    ensures at <= next <= |stream|
    ensures match r
            case Ok(bytes) =>
              && ParsePayload(lib, h, stream[at..]) == Some(Parsed(stream[at..next], stream[next..]))
              && lib.lzma2(stream[at..next]) == Some(Decoded(next - at, bytes)) && |bytes| <= room
            case Err(_) => PayloadRefused(lib, h, stream[at..], room)
  {
    hide SelfDelimiting, Region, ParsePayload, Decodes;
    var s := stream[at..];
    PayloadMissing(lib, h, s);
    if h.compressed.Some? && h.compressed.value > |s| {
      return Err(CompressedRunsOff), at;
    }
    var sink := lib.lzma2(Region(h, s));
    if sink.None? {
      return Err(Lzma2Failed), at;
    }
    var n, bytes := sink.value.consumed, sink.value.bytes;
    PayloadTaken(lib, h, s);
    assert s[..n] == stream[at..at + n] && s[n..] == stream[at + n..];
    if |bytes| > room + 1 {
      return Err(Lzma2Failed), at;
    }
    if h.compressed.Some? && h.compressed.value != n {
      return Err(CompressedSize), at;
    }
    if h.uncompressed.Some? && h.uncompressed.value != |bytes| {
      return Err(UncompressedSize), at;
    }
    if |bytes| > room {
      return Err(TooLong), at;
    }
    return Ok(bytes), at + n;
  }

  lemma PayloadMissing(lib: Libraries, h: Header, s: seq<byte>)
    ensures h.compressed.Some? && h.compressed.value > |s| ==> ParsePayload(lib, h, s) == None
    ensures !(h.compressed.Some? && h.compressed.value > |s|) && lib.lzma2(Region(h, s)).None?
        ==> ParsePayload(lib, h, s) == None
  {
  }

  /// What the decoder takes of the region decodes alike on its own.
  lemma PayloadTaken(lib: Libraries, h: Header, s: seq<byte>)
    requires SelfDelimiting(lib)
    requires h.compressed.Some? ==> h.compressed.value <= |s|
    requires lib.lzma2(Region(h, s)).Some?
    ensures var d := lib.lzma2(Region(h, s)).value;
            && d.consumed <= |s| && lib.lzma2(s[..d.consumed]) == Some(d) && Decodes(lib, s[..d.consumed])
            && ParsePayload(lib, h, s)
               == if (h.compressed.Some? && h.compressed.value != d.consumed) || (h.uncompressed.Some?
                   && h.uncompressed.value != |d.bytes|)
                  then None else Some(Parsed(s[..d.consumed], s[d.consumed..]))
  {
    var region := Region(h, s);
    var n := lib.lzma2(region).value.consumed;
    assert s[..n][..n] == region[..n];
    assert lib.lzma2(s[..n]) == lib.lzma2(region);
  }

  /// Undoes the converter over the whole block.
  method Unfilter(chain: Chain, bytes: seq<byte>) returns (data: seq<byte>)
    requires |bytes| < MAX_SLICE
    ensures data == Unfiltered(chain, bytes)
  {
    if chain.converter.None? {
      return bytes;
    }
    var c := chain.converter.value;
    var block := new byte[|bytes|](i requires 0 <= i < |bytes| => bytes[i]);
    assert block[..] == bytes;
    DecodeInPlace(c.kind, if c.start.Some? then c.start.value else 0, block);
    data := block[..];
  }

  method ReadCheck(lib: Libraries, check: nat, data: seq<byte>, stored: seq<byte>) returns (fault: Option<Fault>)
    requires CheckSize(check) == Some(|stored|)
    ensures fault.None? <==> Verifiable(check) && stored == CheckBytes(lib, check, data)
  {
    if check == 0x01 {
      if LeBytes(lib.crc32(data), 4) != stored {
        return Some(CheckMismatch);
      }
    } else if check == 0x04 {
      var crc := Crc64.Compute(data);
      if Crc64.ToLeBytes(crc) != stored {
        return Some(CheckMismatch);
      }
    } else if check == 0x0A {
      return Some(Sha256);
    }
    return None;
  }

  /// The padding behind a payload and the check over what it holds.
  method ReadBlockEnd(lib: Libraries, check: nat, block: Block, data: seq<byte>, stream: seq<byte>, end: nat)
    returns (fault: Option<Fault>, next: nat)
    requires end <= |stream| && CheckSize(check).Some? && Decodes(lib, block.payload) && data == Data(lib, block)
    ensures end <= next <= |stream|
    ensures fault.None? ==> ParseBlockEnd(lib, check, block, stream[end..]) == Some(stream[next..])
    ensures fault.Some? ==> ParseBlockEnd(lib, check, block, stream[end..]) == None
  {
    hide CheckBytes, Data, AllZero, Pad, Decodes;
    next := end;
    var pad := Pad(|block.payload|);
    var padded := end + pad;
    if padded > |stream| {
      return Some(BlockPadding), end;
    }
    assert stream[end..][..pad] == stream[end..padded] && stream[end..][pad..] == stream[padded..];
    var zero := ReadZeros(stream, end, padded);
    if !zero {
      return Some(BlockPadding), end;
    }
    var size := CheckSize(check).value;
    if padded + size > |stream| {
      return Some(CheckRunsOff), end;
    }
    var stored := stream[padded..padded + size];
    assert stream[padded..][..size] == stored && stream[padded..][size..] == stream[padded + size..];
    fault := ReadCheck(lib, check, data, stored);
    if fault.None? {
      next := padded + size;
    }
  }

  /// No block is there, or one that holds more than there is room for.
  ghost predicate BlockRefused(lib: Libraries, check: nat, s: seq<byte>, room: nat)
    requires s != [] && s[0] != 0
  {
    match ParseBlock(lib, check, s)
    case None => true
    case Some(p) => Decodes(lib, p.value.payload) && |Data(lib, p.value)| > room
  }

  /// One block: header, payload, padding, check. Gives the block, what it holds and where
  /// the next one starts.
  method ReadBlock(lib: Libraries, check: nat, stream: seq<byte>, pos: nat, room: nat)
    returns (r: Result<seq<byte>, Fault>, block: Block, next: nat)
    requires SelfDelimiting(lib) && room < MAX_SLICE
    requires pos < |stream| && stream[pos] != 0 && CheckSize(check).Some?
    ensures pos <= next <= |stream|
    ensures match r
            case Ok(data) =>
              && ParseBlock(lib, check, stream[pos..]) == Some(Parsed(block, stream[next..]))
              && Decodes(lib, block.payload) && data == Data(lib, block) && |data| <= room && next > pos
            case Err(_) => BlockRefused(lib, check, stream[pos..], room)
  {
    hide ParseHeader, ParsePayload, SelfDelimiting, ParseBlockEnd, Unfiltered;
    block, next := Block(Header(None, None, Chain(None, 0), 0), []), pos;
    var h, dataStart := ReadHeader(lib, stream, pos);
    if h.Err? {
      return Err(h.error), block, pos;
    }
    var bytes, end := ReadPayload(lib, h.value, stream, dataStart, room);
    if bytes.Err? {
      return Err(bytes.error), block, pos;
    }
    block := Block(h.value, stream[dataStart..end]);
    var data := Unfilter(h.value.chain, bytes.value);
    var fault;
    fault, next := ReadBlockEnd(lib, check, block, data, stream, end);
    if fault.Some? {
      return Err(fault.value), block, pos;
    }
    return Ok(data), block, next;
  }

  // ----- the index and the footer -----

  method CheckRecords(tail: seq<byte>, at: nat, records: seq<Record>) returns (fault: Option<Fault>, next: nat)
    requires at <= |tail|
    ensures at <= next <= |tail|
    ensures fault.None? ==> MatchRecords(tail[at..], records) == Some(tail[next..])
    ensures fault.Some? ==> MatchRecords(tail[at..], records) == None
  {
    hide ParseVarint;
    next := at;
    assert records[0..] == records;
    for i := 0 to |records|
      invariant at <= next <= |tail|
      invariant MatchRecords(tail[at..], records) == MatchRecords(tail[next..], records[i..])
    {
      ghost var todo := records[i..];
      assert todo[1..] == records[i + 1..];
      var unpadded, uncompressed;
      unpadded, next := ReadVarint(tail, next);
      if unpadded.Err? {
        return Some(unpadded.error), next;
      }
      if unpadded.value != records[i].unpadded {
        return Some(IndexRecord), next;
      }
      uncompressed, next := ReadVarint(tail, next);
      if uncompressed.Err? {
        return Some(uncompressed.error), next;
      }
      if uncompressed.value != records[i].uncompressed {
        return Some(IndexRecord), next;
      }
    }
    return None, next;
  }

  method CheckIndex(lib: Libraries, tail: seq<byte>, records: seq<Record>)
      returns (fault: Option<Fault>, indexSize: nat)
    requires tail != []
    ensures indexSize <= |tail|
    ensures fault.None? ==> ParseIndex(lib, tail, records) == Some(tail[indexSize..])
    ensures fault.Some? ==> ParseIndex(lib, tail, records) == None
  {
    hide ParseVarint, MatchRecords, LeBytes, AllZero, Pad, VarintFault, Continues;
    indexSize := 0;
    var count, at := ReadVarint(tail, 1);
    if count.Err? {
      return Some(count.error), 0;
    }
    if count.value != |records| {
      return Some(IndexCount), 0;
    }
    fault, at := CheckRecords(tail, at, records);
    if fault.Some? {
      return fault, 0;
    }
    var padded := at + Pad(at);
    if padded > |tail| {
      return Some(IndexPadding), 0;
    }
    SuffixSplit(tail, at, padded);
    var zero := ReadZeros(tail, at, padded);
    if !zero {
      return Some(IndexPadding), 0;
    }
    if padded + 4 > |tail| {
      return Some(IndexChecksumRunsOff), 0;
    }
    SuffixSplit(tail, padded, padded + 4);
    if LeBytes(lib.crc32(tail[..padded]), 4) != tail[padded..padded + 4] {
      return Some(IndexChecksum), 0;
    }
    return None, padded + 4;
  }

  lemma SuffixSplit(s: seq<byte>, i: nat, j: nat)
    requires i <= j <= |s|
    ensures s[i..][..j - i] == s[i..j] && s[i..][j - i..] == s[j..]
  {
  }

  lemma FooterSlices(t: seq<byte>)
    requires |t| >= 12
    ensures t[..12][10..] == t[10..12] && t[..12][4..10] == t[4..10] && t[..12][..4] == t[..4]
    ensures t[..12][8..10] == t[8..10] && t[..12][4..8] == t[4..8]
  {
  }

  method CheckIndexAndFooter(lib: Libraries, tail: seq<byte>, records: seq<Record>, headerFlags: seq<byte>)
      returns (fault: Option<Fault>)
    requires tail != [] && |headerFlags| == 2
    ensures fault.None? <==> ParseTail(lib, tail, records, headerFlags).Some?
  {
    hide ParseIndex, LeBytes, LeValue, AllZero;
    var n;
    fault, n := CheckIndex(lib, tail, records);
    if fault.Some? {
      return;
    }
    if n + 12 > |tail| {
      return Some(FooterMissing);
    }
    var footer := tail[n..n + 12];
    ghost var t := tail[n..];
    assert footer == t[..12] && t[12..] == tail[n + 12..];
    FooterSlices(t);
    if footer[10..] != ['Y' as byte, 'Z' as byte] {
      return Some(FooterMagic);
    }
    if LeBytes(lib.crc32(footer[4..10]), 4) != footer[..4] {
      return Some(FooterDamaged);
    }
    if footer[8..10] != headerFlags {
      return Some(FooterFlags);
    }
    if (LeValue(footer[4..8]) + 1) * 4 != n {
      return Some(BackwardSize);
    }
    var zero := ReadZeros(tail, n + 12, |tail|);
    assert tail[n + 12..|tail|] == tail[n + 12..];
    if (|tail| - n - 12) % 4 != 0 || !zero {
      return Some(TrailingBytes);
    }
    return None;
  }

  // ----- the whole stream -----

  /// What the block loop will have parsed, given the blocks it has.
  ghost function After(done: seq<Block>, p: Option<Parsed<seq<Block>>>): Option<Parsed<seq<Block>>> {
    match p
    case None => None
    case Some(q) => Some(Parsed(done + q.value, q.rest))
  }

  lemma BlocksStep(lib: Libraries, check: nat, s: seq<byte>, done: seq<Block>)
    requires SelfDelimiting(lib) && s != [] && s[0] != 0
    ensures ParseBlock(lib, check, s) == None ==> After(done, ParseBlocks(lib, check, s)) == None
    ensures ParseBlock(lib, check, s).Some? ==>
              var p := ParseBlock(lib, check, s).value;
              && ValidBlock(lib, check, p.value)
              && After(done, ParseBlocks(lib, check, s)) == After(done + [p.value], ParseBlocks(lib, check, p.rest))
  {
    hide ParseBlock, ValidBlock, PrintBlock, SelfDelimiting;
    if ParseBlock(lib, check, s).Some? {
      var p := ParseBlock(lib, check, s).value;
      BlockExact(lib, check, s, p.value, p.rest);
      if ParseBlocks(lib, check, p.rest).Some? {
        var q := ParseBlocks(lib, check, p.rest).value;
        assert done + ([p.value] + q.value) == (done + [p.value]) + q.value;
      }
    }
  }

  lemma {:induction false} ContentsConcat(lib: Libraries, a: seq<Block>, b: seq<Block>)
    requires forall i :: 0 <= i < |a| ==> Decodes(lib, a[i].payload)
    requires forall i :: 0 <= i < |b| ==> Decodes(lib, b[i].payload)
    ensures Contents(lib, a + b) == Contents(lib, a) + Contents(lib, b)
    decreases |a|
  {
    hide Decodes, Data;
    if a == [] {
      assert a + b == b;
    } else {
      assert (a + b)[1..] == a[1..] + b;
      ContentsConcat(lib, a[1..], b);
    }
  }

  /// What reading a stream into at most maxOut bytes must give.
  ghost predicate ReadsAs(lib: Libraries, stream: seq<byte>, maxOut: nat, r: Result<seq<byte>, Fault>) {
    match ParseStream(lib, stream)
    case None => r.Err?
    case Some(d) => (forall i :: 0 <= i < |d.blocks| ==> Decodes(lib, d.blocks[i].payload)) &&
                    if |Contents(lib, d.blocks)| <= maxOut then r == Ok(Contents(lib, d.blocks)) else r.Err?
  }

  ghost predicate Parsing(lib: Libraries, stream: seq<byte>, pos: nat, done: seq<Block>, out: seq<byte>,
      records: seq<Record>) {
    && 12 <= pos <= |stream| && ValidBlocks(lib, stream[7] % 16, done)
    && ParseBlocks(lib, stream[7] % 16, stream[12..]) == After(done, ParseBlocks(lib, stream[7] % 16, stream[pos..]))
    && out == Contents(lib, done) && records == Records(lib, stream[7] % 16, done)
  }

  lemma ParsingBegins(lib: Libraries, stream: seq<byte>)
    requires |stream| >= 12
    ensures Parsing(lib, stream, 12, [], [], [])
  {
    hide ParseBlocks;
    var p := ParseBlocks(lib, stream[7] % 16, stream[12..]);
    if p.Some? {
      assert [] + p.value.value == p.value.value;
    }
  }

  /// The next block carries the parse on.
  lemma ParsingStep(lib: Libraries, stream: seq<byte>, pos: nat, done: seq<Block>, out: seq<byte>,
      records: seq<Record>, b: Block, next: nat)
    requires SelfDelimiting(lib) && Parsing(lib, stream, pos, done, out, records)
    requires pos < |stream| && stream[pos] != 0 && pos < next <= |stream|
    requires ParseBlock(lib, stream[7] % 16, stream[pos..]) == Some(Parsed(b, stream[next..]))
    ensures ValidBlock(lib, stream[7] % 16, b)
    ensures Parsing(lib, stream, next, done + [b], out + Data(lib, b), records + [RecordOf(lib, stream[7] % 16, b)])
  {
    hide ParseBlocks, ParseBlock, ValidBlock, SelfDelimiting, Data, RecordOf;
    var check := stream[7] % 16;
    BlocksStep(lib, check, stream[pos..], done);
    DecodesWhenValid(lib, check, done);
    DecodesWhenValid(lib, check, [b]);
    ContentsConcat(lib, done, [b]);
    assert Contents(lib, [b]) == Data(lib, b) by {
      assert [b][1..] == [];
    }
  }

  lemma DecodesWhenValid(lib: Libraries, check: nat, bs: seq<Block>)
    requires ValidBlocks(lib, check, bs)
    ensures forall i :: 0 <= i < |bs| ==> Decodes(lib, bs[i].payload)
  {
    hide ValidHeader, Decodes, Verifiable;
  }

  /// No block parses here: nothing does.
  lemma ParsingFails(lib: Libraries, stream: seq<byte>, pos: nat, done: seq<Block>, out: seq<byte>,
      records: seq<Record>, maxOut: nat, f: Fault)
    requires SelfDelimiting(lib) && Parsing(lib, stream, pos, done, out, records)
    requires pos < |stream| ==> stream[pos] != 0 && ParseBlock(lib, stream[7] % 16, stream[pos..]) == None
    ensures ReadsAs(lib, stream, maxOut, Err(f))
  {
    hide ParseBlock, ParseTail, ValidBlocks, SelfDelimiting;
    if pos < |stream| {
      BlocksStep(lib, stream[7] % 16, stream[pos..], done);
    }
  }

  /// A block that does not fit: whatever follows, the whole would not fit either.
  lemma ParsingOverflows(lib: Libraries, stream: seq<byte>, pos: nat, done: seq<Block>, out: seq<byte>,
      records: seq<Record>, maxOut: nat, f: Fault)
    requires SelfDelimiting(lib) && Parsing(lib, stream, pos, done, out, records) && |out| > maxOut
    ensures ReadsAs(lib, stream, maxOut, Err(f))
  {
    hide ParseBlocks, ParseTail, ValidBlock, SelfDelimiting, Data, LeValue, Decodes, MAGIC, RecordOf;
    var check := stream[7] % 16;
    if ParseStream(lib, stream).Some? {
      var d := ParseStream(lib, stream).value;
      BlocksSound(lib, check, stream[12..]);
      DecodesWhenValid(lib, check, d.blocks);
      var more := ParseBlocks(lib, check, stream[pos..]).value.value;
      assert d.blocks == done + more;
      assert forall i :: 0 <= i < |more| ==> more[i] == d.blocks[|done| + i];
      DecodesWhenValid(lib, check, done);
      ContentsConcat(lib, done, more);
    }
  }

  /// The index is reached: the blocks are all there.
  lemma ParsingEnds(lib: Libraries, stream: seq<byte>, pos: nat, done: seq<Block>, out: seq<byte>,
      records: seq<Record>, maxOut: nat, f: Fault)
    requires Parsing(lib, stream, pos, done, out, records) && |out| <= maxOut
    requires pos < |stream| && stream[pos] == 0
    requires stream[..6] == MAGIC && lib.crc32(stream[6..8]) == LeValue(stream[8..12]) && stream[6] == 0
        && CheckSize(stream[7] % 16).Some?
    ensures if ParseTail(lib, stream[pos..], records, stream[6..8]).Some? then ReadsAs(lib, stream, maxOut, Ok(out))
            else ReadsAs(lib, stream, maxOut, Err(f))
  {
    hide ParseTail, ValidBlock, Data, LeValue;
    assert done + [] == done;
    DecodesWhenValid(lib, stream[7] % 16, done);
  }

  /// `decompress`: the loop over blocks until the index.
  method Decompress(lib: Libraries, stream: seq<byte>, maxOut: nat) returns (r: Result<seq<byte>, Fault>)
    requires SelfDelimiting(lib) && maxOut < MAX_SLICE
    ensures ReadsAs(lib, stream, maxOut, r)
  {
    hide ParseBlocks, ParseBlock, ParseTail, Parsing, SelfDelimiting, LeValue, BlockRefused;
    if |stream| < 12 || stream[..6] != MAGIC {
      return Err(NotAStream);
    }
    var flags := stream[6..8];
    if lib.crc32(flags) != LeValue(stream[8..12]) || flags[0] != 0 {
      return Err(HeaderDamaged);
    }
    var check := flags[1] % 16;
    if CheckSize(check).None? {
      return Err(UnknownCheck);
    }
    hide ReadsAs;
    var out: seq<byte> := [];
    var records: seq<Record> := [];
    var pos := 12;
    ghost var done: seq<Block> := [];
    ParsingBegins(lib, stream);
    while true
      invariant 12 <= pos <= |stream| && |out| <= maxOut
      invariant Parsing(lib, stream, pos, done, out, records)
      decreases |stream| - pos
    {
      if pos >= |stream| {
        ParsingFails(lib, stream, pos, done, out, records, maxOut, NoIndex);
        return Err(NoIndex);
      }
      if stream[pos] == 0 {
        var fault := CheckIndexAndFooter(lib, stream[pos..], records, flags);
        ParsingEnds(lib, stream, pos, done, out, records, maxOut, if fault.Some? then fault.value else NoIndex);
        return if fault.Some? then Err(fault.value) else Ok(out);
      }
      var data, block, next := ReadBlock(lib, check, stream, pos, maxOut - |out|);
      if data.Err? {
        ParsingBlockFails(lib, stream, pos, done, out, records, maxOut, data.error);
        return Err(data.error);
      }
      ParsingStep(lib, stream, pos, done, out, records, block, next);
      out := out + data.value;
      records := records + [RecordOf(lib, check, block)];
      done := done + [block];
      pos := next;
    }
  }

  lemma ParsingBlockFails(lib: Libraries, stream: seq<byte>, pos: nat, done: seq<Block>, out: seq<byte>,
      records: seq<Record>, maxOut: nat, f: Fault)
    requires |stream| >= 12 && pos < |stream| && stream[pos] != 0 && |out| <= maxOut
    requires SelfDelimiting(lib) && Parsing(lib, stream, pos, done, out, records)
    requires BlockRefused(lib, stream[7] % 16, stream[pos..], maxOut - |out|)
    ensures ReadsAs(lib, stream, maxOut, Err(f))
  {
    hide ParseBlock, Parsing, SelfDelimiting, ReadsAs, Data, RecordOf, ValidBlock, Decodes;
    var check := stream[7] % 16;
    var p := ParseBlock(lib, check, stream[pos..]);
    if p.None? {
      ParsingFails(lib, stream, pos, done, out, records, maxOut, f);
    } else {
      var b, next := p.value.value, |stream| - |p.value.rest|;
      BlockSuffix(lib, check, stream, pos);
      ParsingStep(lib, stream, pos, done, out, records, b, next);
      var all := records + [RecordOf(lib, check, b)];
      ParsingOverflows(lib, stream, next, done + [b], out + Data(lib, b), all, maxOut, f);
    }
  }

  /// What follows a block is the end of the stream it came from.
  lemma BlockSuffix(lib: Libraries, check: nat, stream: seq<byte>, pos: nat)
    requires SelfDelimiting(lib) && pos < |stream| && stream[pos] != 0 && ParseBlock(lib, check, stream[pos..]).Some?
    ensures var rest := ParseBlock(lib, check, stream[pos..]).value.rest;
            |rest| < |stream| - pos && rest == stream[|stream| - |rest|..]
  {
    hide ParseBlock, ValidBlock, PrintBlock, SelfDelimiting;
    var p := ParseBlock(lib, check, stream[pos..]).value;
    BlockShrinks(lib, check, stream[pos..]);
    BlockExact(lib, check, stream[pos..], p.value, p.rest);
    var s := stream[pos..];
    assert s[|s| - |p.rest|..] == p.rest;
    assert s[|s| - |p.rest|..] == stream[|stream| - |p.rest|..];
  }

  /// The container round trip: every list of blocks, printed with any valid header and
  /// padding, reads back as what the blocks hold, and nothing else is accepted.
  lemma ReadsExactly(lib: Libraries, stream: seq<byte>, maxOut: nat, r: Result<seq<byte>, Fault>, out: seq<byte>)
    requires SelfDelimiting(lib) && ReadsAs(lib, stream, maxOut, r)
    ensures r == Ok(out) <==>
            |out| <= maxOut && exists d :: ValidStream(lib, d) && stream == PrintStream(lib, d) && out == Holds(lib, d)
  {
    hide ParseStream, ValidStream, PrintStream, SelfDelimiting;
    if r == Ok(out) {
      var d := ParseStream(lib, stream).value;
      StreamExact(lib, stream, d);
    }
    if d :| ValidStream(lib, d) && stream == PrintStream(lib, d) && out == Holds(lib, d) {
      StreamExact(lib, stream, d);
      StreamDecodes(lib, d);
    }
  }

  lemma StreamDecodes(lib: Libraries, d: Stream)
    requires ValidStream(lib, d)
    ensures forall i :: 0 <= i < |d.blocks| ==> Decodes(lib, d.blocks[i].payload)
  {
    DecodesWhenValid(lib, d.flags % 16, d.blocks);
  }

  function Holds(lib: Libraries, d: Stream): seq<byte>
    requires ValidStream(lib, d)
  {
    StreamDecodes(lib, d);
    Contents(lib, d.blocks)
  }

  /// A block filtered by the mirror converter before compression holds the original data,
  /// as long as its start offset is aligned as the format asks.
  lemma FilteredBlockHolds(lib: Libraries, b: Block, data: seq<byte>)
    requires Decodes(lib, b.payload) && b.header.chain.converter.Some?
    requires var c := b.header.chain.converter.value;
             var start := if c.start.Some? then c.start.value else 0;
             Aligned(c.kind, start) && lib.lzma2(b.payload).value.bytes == Convert(c.kind, Encode, start, data)
    ensures Data(lib, b) == data
  {
    hide Convert;
    var c := b.header.chain.converter.value;
    ConvertBack(c.kind, Encode, if c.start.Some? then c.start.value else 0, data);
  }

  // ----- where the reader is laxer than the format -----

  /// Section 2.1.1.2: the high four bits of the second flag byte are reserved, and zero.
  predicate KeepsReservedBitsClear(d: Stream) { d.flags / 16 == 0 }

  /// Any valid stream with its reserved bits set in any way.
  function WithReserved(d: Stream, high: nat): (e: Stream)
    requires high < 16
    ensures e.flags / 16 == high
  {
    Stream(d.flags % 16 + 16 * high, d.blocks, d.padding)
  }

  /// The reader takes every valid stream whatever its reserved bits say, and reads the same
  /// out of it.
  lemma ReservedBitsIgnored(lib: Libraries, d: Stream, high: nat)
    requires SelfDelimiting(lib) && ValidStream(lib, d) && high < 16
    ensures var e := WithReserved(d, high);
            ValidStream(lib, e) && ParseStream(lib, PrintStream(lib, e)) == Some(e) && Holds(lib, e) == Holds(lib, d)
  {
    hide ParseStream, PrintStream, ValidBlocks, ValidTail, Records, SelfDelimiting;
    var e := WithReserved(d, high);
    Modular.DivUnique(e.flags, 16, high, d.flags % 16);
    StreamExact(lib, PrintStream(lib, e), e);
  }

  /// An accepted stream keeps to that section exactly when its eighth byte is below 16, which
  /// a caller can look at beforehand.
  lemma ReservedBitsClearExactly(lib: Libraries, s: seq<byte>, d: Stream)
    requires ParseStream(lib, s) == Some(d)
    ensures |s| >= 12 && (KeepsReservedBitsClear(d) <==> s[7] < 16)
  {
    hide ParseBlocks, ValidBlocks, ParseTail, Records, LeValue;
  }

  /// SHA-256 is accepted for streams without blocks, and for no others.
  lemma Sha256OnlyEmpty(lib: Libraries, d: Stream)
    requires SelfDelimiting(lib)
    ensures d.flags % 16 == 0x0A && ValidStream(lib, d) ==> d.blocks == []
    ensures d.flags % 16 == 0x0A && d.blocks == [] ==> (ValidStream(lib, d) <==> d.padding % 4 == 0)
    ensures ValidStream(lib, Stream(0x0A, [], 0)) && Holds(lib, Stream(0x0A, [], 0)) == []
    ensures ParseStream(lib, PrintStream(lib, Stream(0x0A, [], 0))) == Some(Stream(0x0A, [], 0))
  {
    hide ParseStream, PrintStream, SelfDelimiting;
    if d.blocks != [] && ValidStream(lib, d) {
      assert ValidBlock(lib, d.flags % 16, d.blocks[0]);
    }
    StreamExact(lib, PrintStream(lib, Stream(0x0A, [], 0)), Stream(0x0A, [], 0));
  }
}
