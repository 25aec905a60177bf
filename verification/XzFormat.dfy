/// The container src/xz.rs reads: The .xz File Format, sections 1.2 and 2 to 4, as
/// printers, and the reader's grammar as parsers over what is left of the input.
///
/// LZMA2 and CRC32 come from libraries; here they are parameters.
module XzFormat {
  import opened Bytes
  import opened BcjX86
  import opened Bcj
  import Crc64

  // ----- the libraries -----

  /// What the LZMA2 decoder reports: how many bytes it took and what they decode to.
  datatype Decoded = Decoded(consumed: nat, bytes: seq<byte>)

  datatype Libraries = Libraries(crc32: seq<byte> -> u32, lzma2: seq<byte> -> Option<Decoded>)

  /// The LZMA2 decoder stops at its end marker: it takes no more than it is given, and what
  /// follows the bytes it takes makes no difference.
  ghost predicate SelfDelimiting(lib: Libraries) {
    && (forall p :: lib.lzma2(p).Some? ==> lib.lzma2(p).value.consumed <= |p|)
    && (forall p, q :: lib.lzma2(p).Some? && lib.lzma2(p).value.consumed <= |q|
                       && q[..lib.lzma2(p).value.consumed] == p[..lib.lzma2(p).value.consumed]
                       ==> lib.lzma2(q) == lib.lzma2(p))
  }

  /// A parsed value and the input after it.
  datatype Parsed<+T> = Parsed(value: T, rest: seq<byte>)

  // ----- variable-length integers, section 1.2 -----

  const VARINT_END := 0x8000_0000_0000_0000

  function Varint(v: nat): (s: seq<byte>)
    ensures |s| > 0
  {
    if v < 0x80 then [v] else [0x80 + v % 0x80] + Varint(v / 0x80)
  }

  /// The reader's loop from its i-th byte on.
  function ParseVarintFrom(s: seq<byte>, i: nat): (p: Option<Parsed<nat>>)
    requires i <= 9
    decreases 9 - i
  {
    if i == 9 || s == [] then None
    else if s[0] < 0x80 then
      if i > 0 && s[0] == 0 then None else Some(Parsed(s[0], s[1..]))
    else
      match ParseVarintFrom(s[1..], i + 1)
      case None => None
      case Some(p) => Some(Parsed(s[0] - 0x80 + 0x80 * p.value, p.rest))
  }

  function ParseVarint(s: seq<byte>): (p: Option<Parsed<nat>>) { ParseVarintFrom(s, 0) }

  /// 128 to the n-th.
  function Pow128(n: nat): (p: nat)
    ensures p > 0
  {
    if n == 0 then 1 else 0x80 * Pow128(n - 1)
  }

  lemma NextPow128(i: nat)
    ensures Pow128(i + 1) == 0x80 * Pow128(i)
  {
  }

  lemma {:induction false} VarintSound(s: seq<byte>, i: nat)
    requires i <= 9 && ParseVarintFrom(s, i).Some?
    ensures var p := ParseVarintFrom(s, i).value;
            s == Varint(p.value) + p.rest && p.value < Pow128(9 - i) && (i > 0 ==> p.value > 0)
    decreases 9 - i
  {
    assert s == [s[0]] + s[1..];
    NextPow128(8 - i);
    hide Pow128;
    if s[0] >= 0x80 {
      VarintSound(s[1..], i + 1);
      var q := ParseVarintFrom(s[1..], i + 1).value;
      var v := s[0] - 0x80 + 0x80 * q.value;
      Modular.DivUnique(v, 0x80, q.value, s[0] - 0x80);
    }
  }

  lemma {:induction false} VarintComplete(v: nat, rest: seq<byte>, i: nat)
    requires i < 9 && v < Pow128(9 - i) && (i > 0 ==> v > 0)
    ensures ParseVarintFrom(Varint(v) + rest, i) == Some(Parsed(v, rest))
    decreases 9 - i
  {
    var s := Varint(v) + rest;
    if v >= 0x80 {
      assert s[1..] == Varint(v / 0x80) + rest;
      VarintComplete(v / 0x80, rest, i + 1);
    } else {
      assert s[1..] == rest;
    }
  }

  lemma Pow128Nine()
    ensures Pow128(9) == VARINT_END
  {
    assert Pow128(3) == 0x20_0000;
    assert Pow128(5) == 0x8_0000_0000;
    assert Pow128(7) == 0x2_0000_0000_0000;
  }

  /// The reader accepts exactly the minimal encodings of the numbers below 2^63, each
  /// as the number it encodes.
  lemma VarintExact(s: seq<byte>, v: nat, rest: seq<byte>)
    ensures ParseVarint(s) == Some(Parsed(v, rest)) <==> v < VARINT_END && s == Varint(v) + rest
  {
    Pow128Nine();
    if ParseVarint(s).Some? {
      VarintSound(s, 0);
    }
    if v < VARINT_END {
      VarintComplete(v, rest, 0);
    }
  }

  // ----- the fields of a block header, section 3.1 -----

  function OptVarint(v: Option<nat>): seq<byte> { if v.Some? then Varint(v.value) else [] }

  predicate Encodable(v: Option<nat>) { v.Some? ==> v.value < VARINT_END }

  function ParseOptVarint(present: bool, s: seq<byte>): (p: Option<Parsed<Option<nat>>>) {
    if !present then Some(Parsed(None, s))
    else
      match ParseVarint(s)
      case None => None
      case Some(p) => Some(Parsed(Some(p.value), p.rest))
  }

  lemma OptVarintExact(present: bool, s: seq<byte>, v: Option<nat>, rest: seq<byte>)
    ensures ParseOptVarint(present, s) == Some(Parsed(v, rest)) <==>
            v.Some? == present && Encodable(v) && s == OptVarint(v) + rest
  {
    hide ParseVarint, Varint;
    if v.Some? {
      VarintExact(s, v.value, rest);
    } else {
      assert OptVarint(v) + rest == rest;
    }
  }

  datatype Filter = Filter(id: nat, props: seq<byte>)

  function PrintFilter(f: Filter): seq<byte> { Varint(f.id) + (Varint(|f.props|) + f.props) }

  predicate ValidFilter(f: Filter) { f.id < VARINT_END && |f.props| < VARINT_END }

  function ParseFilter(s: seq<byte>): (p: Option<Parsed<Filter>>) {
    match ParseVarint(s)
    case None => None
    case Some(id) =>
      match ParseVarint(id.rest)
      case None => None
      case Some(len) =>
        if len.value > |len.rest| then None
        else Some(Parsed(Filter(id.value, len.rest[..len.value]), len.rest[len.value..]))
  }

  lemma FilterExact(s: seq<byte>, f: Filter, rest: seq<byte>)
    ensures ParseFilter(s) == Some(Parsed(f, rest)) <==> ValidFilter(f) && s == PrintFilter(f) + rest
  {
    hide ParseVarint, Varint;
    var tail := Varint(|f.props|) + (f.props + rest);
    assert PrintFilter(f) + rest == Varint(f.id) + tail;
    VarintExact(s, f.id, tail);
    VarintExact(tail, |f.props|, f.props + rest);
    assert (f.props + rest)[..|f.props|] == f.props && (f.props + rest)[|f.props|..] == rest;
    if ParseFilter(s) == Some(Parsed(f, rest)) {
      var id := ParseVarint(s).value;
      var len := ParseVarint(id.rest).value;
      VarintExact(s, id.value, id.rest);
      VarintExact(id.rest, len.value, len.rest);
      assert len.rest == f.props + rest;
    }
  }

  /// One branch converter at most, then LZMA2 with its dictionary size code.
  datatype Converter = Converter(kind: Bcj, start: Option<u32>)
  datatype Chain = Chain(converter: Option<Converter>, dictionary: byte)

  const LZMA2 := 0x21

  function LastFilter(dictionary: byte): Filter { Filter(LZMA2, [dictionary]) }

  function ConverterFilter(c: Converter): Filter {
    Filter(ToId(c.kind), if c.start.Some? then LeBytes(c.start.value, 4) else [])
  }

  predicate ValidChain(c: Chain) { c.dictionary <= 40 }

  function PrintChain(c: Chain): seq<byte> {
    if c.converter.Some? then PrintFilter(ConverterFilter(c.converter.value)) + PrintFilter(LastFilter(c.dictionary))
    else PrintFilter(LastFilter(c.dictionary))
  }

  function ParseLast(s: seq<byte>): (p: Option<Parsed<byte>>) {
    match ParseFilter(s)
    case None => None
    case Some(f) =>
      if f.value.id == LZMA2 && |f.value.props| == 1 && f.value.props[0] <= 40 then
        Some(Parsed(f.value.props[0], f.rest))
      else None
  }

  function ParseConverter(s: seq<byte>): (p: Option<Parsed<Converter>>) {
    match ParseFilter(s)
    case None => None
    case Some(f) =>
      if f.value.id == LZMA2 || FromId(f.value.id).None? then None
      else if |f.value.props| == 0 then Some(Parsed(Converter(FromId(f.value.id).value, None), f.rest))
      else if |f.value.props| == 4 then
        Pow256Values();
        Some(Parsed(Converter(FromId(f.value.id).value, Some(LeValue(f.value.props))), f.rest))
      else None
  }

  /// The chain the two low flag bits announce; longer ones are never accepted.
  function ParseChain(more: nat, s: seq<byte>): (p: Option<Parsed<Chain>>) {
    if more == 0 then
      match ParseLast(s)
      case None => None
      case Some(d) => Some(Parsed(Chain(None, d.value), d.rest))
    else if more == 1 then
      match ParseConverter(s)
      case None => None
      case Some(c) =>
        match ParseLast(c.rest)
        case None => None
        case Some(d) => Some(Parsed(Chain(Some(c.value), d.value), d.rest))
    else None
  }

  lemma LastExact(s: seq<byte>, d: byte, rest: seq<byte>)
    ensures ParseLast(s) == Some(Parsed(d, rest)) <==> d <= 40 && s == PrintFilter(LastFilter(d)) + rest
  {
    hide PrintFilter, ParseFilter;
    FilterExact(s, LastFilter(d), rest);
    if ParseLast(s) == Some(Parsed(d, rest)) {
      assert ParseFilter(s).value.value.props == [d];
    }
  }

  lemma ConverterExact(s: seq<byte>, c: Converter, rest: seq<byte>)
    ensures ParseConverter(s) == Some(Parsed(c, rest)) <==> s == PrintFilter(ConverterFilter(c)) + rest
  {
    hide PrintFilter, ParseFilter;
    Pow256Values();
    FilterExact(s, ConverterFilter(c), rest);
    if c.start.Some? {
      LeValueOfBytes(c.start.value, 4);
    }
    if ParseConverter(s) == Some(Parsed(c, rest)) {
      var f := ParseFilter(s).value.value;
      LeBytesOfValue(f.props);
      assert f == ConverterFilter(c);
    }
  }

  lemma ChainExact(more: nat, s: seq<byte>, c: Chain, rest: seq<byte>)
    ensures ParseChain(more, s) == Some(Parsed(c, rest)) <==>
            more == (if c.converter.Some? then 1 else 0) && ValidChain(c) && s == PrintChain(c) + rest
  {
    hide PrintFilter, ParseLast, ParseConverter;
    var last := PrintFilter(LastFilter(c.dictionary)) + rest;
    if c.converter.Some? {
      var v := c.converter.value;
      assert PrintChain(c) + rest == PrintFilter(ConverterFilter(v)) + last;
      ConverterExact(s, v, last);
      LastExact(last, c.dictionary, rest);
      if more == 1 && ParseConverter(s).Some? {
        var p := ParseConverter(s).value;
        ConverterExact(s, p.value, p.rest);
        LastExact(p.rest, c.dictionary, rest);
      }
    } else {
      LastExact(s, c.dictionary, rest);
    }
  }

  // ----- block headers -----

  datatype Header = Header(compressed: Option<nat>, uncompressed: Option<nat>, chain: Chain, padding: nat)

  function HeaderFields(h: Header): seq<byte> {
    OptVarint(h.compressed) + (OptVarint(h.uncompressed) + (PrintChain(h.chain) + Zeros(h.padding)))
  }

  function HeaderSize(h: Header): nat { 6 + |HeaderFields(h)| }

  predicate ValidHeader(h: Header) {
    && Encodable(h.compressed) && Encodable(h.uncompressed) && ValidChain(h.chain)
    && HeaderSize(h) % 4 == 0 && 8 <= HeaderSize(h) <= 1024
  }

  function HeaderFlags(h: Header): byte {
    (if h.chain.converter.Some? then 1 else 0)
    + (if h.compressed.Some? then 0x40 else 0)
    + (if h.uncompressed.Some? then 0x80 else 0)
  }

  function HeaderBody(h: Header): seq<byte>
    requires ValidHeader(h)
  {
    [HeaderSize(h) / 4 - 1, HeaderFlags(h)] + HeaderFields(h)
  }

  /// A body and the CRC32 over it.
  function Sealed(lib: Libraries, body: seq<byte>): seq<byte> { body + LeBytes(lib.crc32(body), 4) }

  function PrintHeader(lib: Libraries, h: Header): seq<byte>
    requires ValidHeader(h)
  {
    Sealed(lib, HeaderBody(h))
  }

  predicate AllZero(s: seq<byte>) { forall i :: 0 <= i < |s| ==> s[i] == 0 }

  function ParseFields(flags: byte, s: seq<byte>): (h: Option<Header>) {
    match ParseOptVarint(flags / 0x40 % 2 == 1, s)
    case None => None
    case Some(c) =>
      match ParseOptVarint(flags / 0x80 == 1, c.rest)
      case None => None
      case Some(u) =>
        match ParseChain(flags % 4, u.rest)
        case None => None
        case Some(f) => if AllZero(f.rest) then Some(Header(c.value, u.value, f.value, |f.rest|)) else None
  }

  /// The size a header's first byte stands for.
  function RealSize(b: byte): nat { (b as int + 1) * 4 }

  /// The header at the start of s, whose first byte gives its size.
  function ParseHeader(lib: Libraries, s: seq<byte>): (p: Option<Parsed<Header>>)
    requires s != [] && s[0] != 0
  {
    var n := RealSize(s[0]);
    if n > |s| then None
    else
      var body := s[..n - 4];
      if lib.crc32(body) != LeValue(s[n - 4..n]) then None
      else if body[1] / 4 % 16 != 0 then None
      else
        match ParseFields(body[1], body[2..])
        case None => None
        case Some(h) => Some(Parsed(h, s[n..]))
  }

  lemma FieldsExact(flags: byte, s: seq<byte>, h: Header)
    requires flags / 4 % 16 == 0
    ensures ParseFields(flags, s) == Some(h) <==>
            && flags == HeaderFlags(h) && s == HeaderFields(h)
            && Encodable(h.compressed) && Encodable(h.uncompressed) && ValidChain(h.chain)
  {
    hide ParseOptVarint, ParseChain, OptVarint, PrintChain;
    var zeros := Zeros(h.padding);
    var tail := PrintChain(h.chain) + zeros;
    var both := OptVarint(h.uncompressed) + tail;
    var hasC, hasU := flags / 0x40 % 2 == 1, flags / 0x80 == 1;
    OptVarintExact(hasC, s, h.compressed, both);
    OptVarintExact(hasU, both, h.uncompressed, tail);
    ChainExact(flags % 4, tail, h.chain, zeros);
    if ParseFields(flags, s) == Some(h) {
      var c := ParseOptVarint(hasC, s).value;
      var u := ParseOptVarint(hasU, c.rest).value;
      var f := ParseChain(flags % 4, u.rest).value;
      OptVarintExact(hasC, s, c.value, c.rest);
      OptVarintExact(hasU, c.rest, u.value, u.rest);
      ChainExact(flags % 4, u.rest, f.value, f.rest);
      assert f.rest == zeros;
    }
    FlagBits(flags, h);
  }

  lemma FlagBits(flags: byte, h: Header)
    requires flags / 4 % 16 == 0
    ensures flags == HeaderFlags(h) <==>
            && (flags / 0x40 % 2 == 1) == h.compressed.Some? && (flags / 0x80 == 1) == h.uncompressed.Some?
            && flags % 4 == if h.chain.converter.Some? then 1 else 0
  {
  }

  lemma HeaderFlagsReserved(h: Header)
    ensures HeaderFlags(h) / 4 % 16 == 0
  {
  }

  lemma SealedExact(lib: Libraries, s: seq<byte>, body: seq<byte>)
    ensures s == Sealed(lib, body) <==>
            |s| == |body| + 4 && s[..|body|] == body && LeValue(s[|body|..]) == lib.crc32(body)
  {
    Pow256Values();
    LeValueOfBytes(lib.crc32(body), 4);
    if |s| == |body| + 4 && s[..|body|] == body {
      assert s == s[..|body|] + s[|body|..];
      LeBytesOfValue(s[|body|..]);
    }
  }

  lemma HeaderExact(lib: Libraries, s: seq<byte>, h: Header, rest: seq<byte>)
    requires s != [] && s[0] != 0
    ensures ParseHeader(lib, s) == Some(Parsed(h, rest)) <==> ValidHeader(h) && s == PrintHeader(lib, h) + rest
  {
    if ParseHeader(lib, s) == Some(Parsed(h, rest)) {
      HeaderSound(lib, s, h, rest);
    }
    if ValidHeader(h) && s == PrintHeader(lib, h) + rest {
      HeaderComplete(lib, h, rest);
    }
  }

  lemma HeaderSound(lib: Libraries, s: seq<byte>, h: Header, rest: seq<byte>)
    requires s != [] && s[0] != 0 && ParseHeader(lib, s) == Some(Parsed(h, rest))
    ensures ValidHeader(h) && s == PrintHeader(lib, h) + rest
  {
    hide ParseFields, HeaderFields, LeValue;
    var n := RealSize(s[0]);
    var body := s[..n - 4];
    FieldsExact(body[1], body[2..], h);
    assert |HeaderFields(h)| == n - 6;
    assert body == [body[0], body[1]] + body[2..];
    SealedExact(lib, s[..n], body);
    assert s[..n][..n - 4] == body && s[..n][n - 4..] == s[n - 4..n];
    assert s == s[..n] + rest;
  }

  lemma HeaderComplete(lib: Libraries, h: Header, rest: seq<byte>)
    requires ValidHeader(h)
    ensures |PrintHeader(lib, h)| == HeaderSize(h)
    ensures var s := PrintHeader(lib, h) + rest;
            s[0] != 0 && ParseHeader(lib, s) == Some(Parsed(h, rest))
  {
    hide ParseFields, HeaderFields, LeValue, LeBytes;
    var body := HeaderBody(h);
    var t := PrintHeader(lib, h);
    var s := t + rest;
    var n := HeaderSize(h);
    assert |body| == n - 4 && |t| == n && RealSize(s[0]) == n;
    SealedExact(lib, t, body);
    assert s[..n - 4] == t[..n - 4] == body && s[n - 4..n] == t[n - 4..] && s[n..] == rest;
    HeaderFlagsReserved(h);
    assert body[2..] == HeaderFields(h);
    FieldsExact(body[1], body[2..], h);
  }

  // ----- blocks, section 3 -----

  datatype Block = Block(header: Header, payload: seq<byte>)

  /// The size of a check, by the stream header's check type; `None` for unknown types.
  function CheckSize(check: nat): Option<nat> {
    match check
    case 0x00 => Some(0)
    case 0x01 => Some(4)
    case 0x04 => Some(8)
    case 0x0A => Some(32)
    case _ => None
  }

  /// The check types whose blocks the reader can verify; SHA-256 it refuses.
  predicate Verifiable(check: nat) { check == 0x00 || check == 0x01 || check == 0x04 }

  function CheckBytes(lib: Libraries, check: nat, data: seq<byte>): (s: seq<byte>)
    requires Verifiable(check)
    ensures Some(|s|) == CheckSize(check)
  {
    if check == 0x00 then []
    else if check == 0x01 then LeBytes(lib.crc32(data), 4)
    else Crc64.ToLeBytes(Crc64.Crc(data))
  }

  /// LZMA2's output with the branch converter undone.
  function Unfiltered(chain: Chain, bytes: seq<byte>): (data: seq<byte>)
    ensures |data| == |bytes|
  {
    match chain.converter
    case None => bytes
    case Some(c) => Convert(c.kind, Decode, if c.start.Some? then c.start.value else 0, bytes)
  }

  /// Zero bytes up to a multiple of four.
  function Pad(n: nat): (p: nat)
    ensures p < 4 && (n + p) % 4 == 0
  {
    (4 - n % 4) % 4
  }

  predicate Decodes(lib: Libraries, payload: seq<byte>) {
    lib.lzma2(payload).Some? && lib.lzma2(payload).value.consumed == |payload|
  }

  /// What a block holds.
  function Data(lib: Libraries, b: Block): seq<byte>
    requires Decodes(lib, b.payload)
  {
    Unfiltered(b.header.chain, lib.lzma2(b.payload).value.bytes)
  }

  predicate ValidBlock(lib: Libraries, check: nat, b: Block) {
    && ValidHeader(b.header) && Verifiable(check) && Decodes(lib, b.payload)
    && (b.header.compressed.Some? ==> b.header.compressed.value == |b.payload|)
    && (b.header.uncompressed.Some? ==> b.header.uncompressed.value == |Data(lib, b)|)
  }

  function PrintBlock(lib: Libraries, check: nat, b: Block): seq<byte>
    requires ValidBlock(lib, check, b)
  {
    PrintHeader(lib, b.header) + (b.payload + (Zeros(Pad(|b.payload|)) + CheckBytes(lib, check, Data(lib, b))))
  }

  /// What the decoder is given.
  function Region(h: Header, s: seq<byte>): seq<byte>
    requires h.compressed.Some? ==> h.compressed.value <= |s|
  {
    if h.compressed.Some? then s[..h.compressed.value] else s
  }

  /// The payload at the start of s, cut to its declared size when it has one.
  function ParsePayload(lib: Libraries, h: Header, s: seq<byte>): (p: Option<Parsed<seq<byte>>>) {
    if h.compressed.Some? && h.compressed.value > |s| then None
    else
      var region := Region(h, s);
      match lib.lzma2(region)
      case None => None
      case Some(d) =>
        if d.consumed > |region| then None
        else if h.compressed.Some? && h.compressed.value != d.consumed then None
        else if h.uncompressed.Some? && h.uncompressed.value != |d.bytes| then None
        else Some(Parsed(s[..d.consumed], s[d.consumed..]))
  }

  function ParsePadding(n: nat, s: seq<byte>): (rest: Option<seq<byte>>) {
    if n <= |s| && AllZero(s[..n]) then Some(s[n..]) else None
  }

  function ParseCheck(lib: Libraries, check: nat, data: seq<byte>, s: seq<byte>): (rest: Option<seq<byte>>) {
    if !Verifiable(check) then None
    else
      var expected := CheckBytes(lib, check, data);
      if |expected| <= |s| && s[..|expected|] == expected then Some(s[|expected|..]) else None
  }

  function ParseBlock(lib: Libraries, check: nat, s: seq<byte>): (p: Option<Parsed<Block>>)
    requires s != [] && s[0] != 0
  {
    match ParseHeader(lib, s)
    case None => None
    case Some(h) =>
      match ParsePayload(lib, h.value, h.rest)
      case None => None
      case Some(c) =>
        var b := Block(h.value, c.value);
        if !Decodes(lib, c.value) then None
        else
          match ParseBlockEnd(lib, check, b, c.rest)
          case None => None
          case Some(rest) => Some(Parsed(b, rest))
  }

  /// The padding and the check behind a payload.
  function ParseBlockEnd(lib: Libraries, check: nat, b: Block, s: seq<byte>): (rest: Option<seq<byte>>)
    requires Decodes(lib, b.payload)
  {
    match ParsePadding(Pad(|b.payload|), s)
    case None => None
    case Some(t) => ParseCheck(lib, check, Data(lib, b), t)
  }

  lemma PaddingExact(n: nat, s: seq<byte>, rest: seq<byte>)
    ensures ParsePadding(n, s) == Some(rest) <==> s == Zeros(n) + rest
  {
    if ParsePadding(n, s) == Some(rest) {
      assert s[..n] == Zeros(n);
      assert s == s[..n] + s[n..];
    }
    if s == Zeros(n) + rest {
      assert s[..n] == Zeros(n) && s[n..] == rest;
    }
  }

  lemma CheckExact(lib: Libraries, check: nat, data: seq<byte>, s: seq<byte>, rest: seq<byte>)
    ensures ParseCheck(lib, check, data, s) == Some(rest) <==>
            Verifiable(check) && s == CheckBytes(lib, check, data) + rest
  {
    hide CheckBytes;
    if Verifiable(check) {
      var expected := CheckBytes(lib, check, data);
      if ParseCheck(lib, check, data, s) == Some(rest) {
        assert s == s[..|expected|] + s[|expected|..];
      }
      if s == expected + rest {
        assert s[..|expected|] == expected && s[|expected|..] == rest;
      }
    }
  }

  lemma PayloadExact(lib: Libraries, h: Header, s: seq<byte>, c: seq<byte>, rest: seq<byte>)
    requires SelfDelimiting(lib)
    ensures ParsePayload(lib, h, s) == Some(Parsed(c, rest)) <==>
            && s == c + rest && Decodes(lib, c)
            && (h.compressed.Some? ==> h.compressed.value == |c|)
            && (h.uncompressed.Some? ==> h.uncompressed.value == |lib.lzma2(c).value.bytes|)
  {
    if ParsePayload(lib, h, s) == Some(Parsed(c, rest)) {
      var region := Region(h, s);
      var n := lib.lzma2(region).value.consumed;
      assert c == s[..n] && region[..n] == c && c[..n] == c;
      assert s == c + rest;
    }
    if s == c + rest && Decodes(lib, c) {
      assert s[..|c|] == c && s[|c|..] == rest && c[..|c|] == c;
      assert lib.lzma2(s) == lib.lzma2(c);
    }
  }

  lemma BlockExact(lib: Libraries, check: nat, s: seq<byte>, b: Block, rest: seq<byte>)
    requires SelfDelimiting(lib) && s != [] && s[0] != 0
    ensures ParseBlock(lib, check, s) == Some(Parsed(b, rest)) <==>
            ValidBlock(lib, check, b) && s == PrintBlock(lib, check, b) + rest
  {
    if ParseBlock(lib, check, s) == Some(Parsed(b, rest)) {
      BlockSound(lib, check, s, b, rest);
    }
    if ValidBlock(lib, check, b) && s == PrintBlock(lib, check, b) + rest {
      BlockComplete(lib, check, b, rest);
    }
  }

  lemma BlockSound(lib: Libraries, check: nat, s: seq<byte>, b: Block, rest: seq<byte>)
    requires SelfDelimiting(lib) && s != [] && s[0] != 0
    requires ParseBlock(lib, check, s) == Some(Parsed(b, rest))
    ensures ValidBlock(lib, check, b) && s == PrintBlock(lib, check, b) + rest
  {
    hide ParseHeader, ParsePayload, ParsePadding, ParseCheck, ValidHeader, PrintHeader, Unfiltered, SelfDelimiting,
        Zeros, CheckBytes, Pad;
    var h := ParseHeader(lib, s).value;
    var c := ParsePayload(lib, h.value, h.rest).value;
    var t := ParsePadding(Pad(|c.value|), c.rest).value;
    HeaderExact(lib, s, h.value, h.rest);
    PayloadExact(lib, h.value, h.rest, c.value, c.rest);
    PaddingExact(Pad(|c.value|), c.rest, t);
    CheckExact(lib, check, Data(lib, b), t, rest);
    var bytes := CheckBytes(lib, check, Data(lib, b));
    Reassociate(PrintHeader(lib, b.header), b.payload, Zeros(Pad(|b.payload|)), bytes, rest);
  }

  lemma BlockComplete(lib: Libraries, check: nat, b: Block, rest: seq<byte>)
    requires SelfDelimiting(lib) && ValidBlock(lib, check, b)
    ensures var s := PrintBlock(lib, check, b) + rest;
            s != [] && s[0] != 0 && ParseBlock(lib, check, s) == Some(Parsed(b, rest))
  {
    hide ParseHeader, ParsePayload, ParsePadding, ParseCheck, ValidHeader, PrintHeader, Unfiltered, SelfDelimiting,
        Zeros, CheckBytes, Pad;
    var zeros, stored := Zeros(Pad(|b.payload|)), CheckBytes(lib, check, Data(lib, b));
    Reassociate(PrintHeader(lib, b.header), b.payload, zeros, stored, rest);
    var r1 := b.payload + (zeros + (stored + rest));
    var s := PrintBlock(lib, check, b) + rest;
    assert s == PrintHeader(lib, b.header) + r1;
    HeaderComplete(lib, b.header, r1);
    PayloadExact(lib, b.header, r1, b.payload, zeros + (stored + rest));
    PaddingExact(Pad(|b.payload|), zeros + (stored + rest), stored + rest);
    CheckExact(lib, check, Data(lib, b), stored + rest, rest);
    assert Block(b.header, b.payload) == b;
  }

  lemma Reassociate(a: seq<byte>, b: seq<byte>, c: seq<byte>, d: seq<byte>, rest: seq<byte>)
    ensures (a + (b + (c + d))) + rest == a + (b + (c + (d + rest)))
  {
  }

  // ----- the blocks of a stream -----

  predicate ValidBlocks(lib: Libraries, check: nat, bs: seq<Block>) {
    forall i :: 0 <= i < |bs| ==> ValidBlock(lib, check, bs[i])
  }

  function PrintBlocks(lib: Libraries, check: nat, bs: seq<Block>): seq<byte>
    requires ValidBlocks(lib, check, bs)
  {
    if bs == [] then [] else PrintBlock(lib, check, bs[0]) + PrintBlocks(lib, check, bs[1..])
  }

  /// Blocks up to the index, whose first byte is zero where a header's never is.
  function ParseBlocks(lib: Libraries, check: nat, s: seq<byte>): (p: Option<Parsed<seq<Block>>>)
    decreases |s|
  {
    if s == [] then None
    else if s[0] == 0 then Some(Parsed([], s))
    else
      match ParseBlock(lib, check, s)
      case None => None
      case Some(b) =>
        BlockShrinks(lib, check, s);
        match ParseBlocks(lib, check, b.rest)
        case None => None
        case Some(bs) => Some(Parsed([b.value] + bs.value, bs.rest))
  }

  lemma BlockShrinks(lib: Libraries, check: nat, s: seq<byte>)
    requires s != [] && s[0] != 0 && ParseBlock(lib, check, s).Some?
    ensures |ParseBlock(lib, check, s).value.rest| < |s|
  {
    hide ParseFields, CheckBytes, Unfiltered;
  }

  lemma {:induction false} BlocksSound(lib: Libraries, check: nat, s: seq<byte>)
    requires SelfDelimiting(lib) && ParseBlocks(lib, check, s).Some?
    ensures var p := ParseBlocks(lib, check, s).value;
            ValidBlocks(lib, check, p.value) && s == PrintBlocks(lib, check, p.value) + p.rest && p.rest != []
                && p.rest[0] == 0
    decreases |s|
  {
    hide ParseBlock, ValidBlock, PrintBlock, SelfDelimiting;
    if s[0] != 0 {
      var b := ParseBlock(lib, check, s).value;
      BlockShrinks(lib, check, s);
      BlockExact(lib, check, s, b.value, b.rest);
      BlocksSound(lib, check, b.rest);
      var bs := ParseBlocks(lib, check, b.rest).value;
      assert ([b.value] + bs.value)[1..] == bs.value;
    }
  }

  lemma {:induction false} BlocksComplete(lib: Libraries, check: nat, bs: seq<Block>, rest: seq<byte>)
    requires SelfDelimiting(lib) && ValidBlocks(lib, check, bs) && rest != [] && rest[0] == 0
    ensures ParseBlocks(lib, check, PrintBlocks(lib, check, bs) + rest) == Some(Parsed(bs, rest))
    decreases |bs|
  {
    hide ParseBlock, ValidBlock, PrintBlock, SelfDelimiting;
    if bs == [] {
      assert PrintBlocks(lib, check, bs) + rest == rest;
    } else {
      var tail := PrintBlocks(lib, check, bs[1..]) + rest;
      assert PrintBlocks(lib, check, bs) + rest == PrintBlock(lib, check, bs[0]) + tail;
      BlockComplete(lib, check, bs[0], tail);
      BlocksComplete(lib, check, bs[1..], rest);
      assert bs == [bs[0]] + bs[1..];
    }
  }

  // ----- the index and the footer, sections 2.1.2 and 4 -----

  /// A block's line in the index: its unpadded size and the size of what it holds.
  datatype Record = Record(unpadded: nat, uncompressed: nat)

  function RecordOf(lib: Libraries, check: nat, b: Block): Record
    requires ValidBlock(lib, check, b)
  {
    Record(HeaderSize(b.header) + |b.payload| + CheckSize(check).value, |Data(lib, b)|)
  }

  function Records(lib: Libraries, check: nat, bs: seq<Block>): (rs: seq<Record>)
    requires ValidBlocks(lib, check, bs)
    ensures |rs| == |bs|
  {
    seq(|bs|, i requires 0 <= i < |bs| => RecordOf(lib, check, bs[i]))
  }

  function PrintRecords(rs: seq<Record>): seq<byte> {
    if rs == [] then [] else Varint(rs[0].unpadded) + (Varint(rs[0].uncompressed) + PrintRecords(rs[1..]))
  }

  predicate ValidRecords(rs: seq<Record>) {
    |rs| < VARINT_END && forall i :: 0 <= i < |rs| ==> rs[i].unpadded < VARINT_END && rs[i].uncompressed < VARINT_END
  }

  function IndexHead(rs: seq<Record>): seq<byte> { [0] + (Varint(|rs|) + PrintRecords(rs)) }

  function IndexBody(rs: seq<Record>): seq<byte> { IndexHead(rs) + Zeros(Pad(|IndexHead(rs)|)) }

  function IndexSize(rs: seq<Record>): (n: nat)
    ensures n % 4 == 0 && n >= 4
  {
    |IndexBody(rs)| + 4
  }

  /// What the footer's own CRC32 covers: the backward size and the stream flags.
  function FooterBody(rs: seq<Record>, flags: seq<byte>): seq<byte> { LeBytes(IndexSize(rs) / 4 - 1, 4) + flags }

  function PrintFooter(lib: Libraries, rs: seq<Record>, flags: seq<byte>): seq<byte> {
    LeBytes(lib.crc32(FooterBody(rs, flags)), 4) + (FooterBody(rs, flags) + ['Y' as byte, 'Z' as byte])
  }

  predicate ValidTail(rs: seq<Record>, padding: nat) {
    ValidRecords(rs) && IndexSize(rs) / 4 - 1 < 0x1_0000_0000 && padding % 4 == 0
  }

  function PrintTail(lib: Libraries, rs: seq<Record>, flags: seq<byte>, padding: nat): seq<byte> {
    Sealed(lib, IndexBody(rs)) + (PrintFooter(lib, rs, flags) + Zeros(padding))
  }

  /// The records in turn, each varint compared with the block it must repeat.
  function MatchRecords(s: seq<byte>, rs: seq<Record>): (rest: Option<seq<byte>>)
    decreases |rs|
  {
    if rs == [] then Some(s)
    else
      match ParseVarint(s)
      case None => None
      case Some(u) =>
        if u.value != rs[0].unpadded then None
        else
          match ParseVarint(u.rest)
          case None => None
          case Some(v) => if v.value != rs[0].uncompressed then None else MatchRecords(v.rest, rs[1..])
  }

  lemma {:induction false} RecordsExact(s: seq<byte>, rs: seq<Record>, rest: seq<byte>)
    ensures MatchRecords(s, rs) == Some(rest) <==>
            && s == PrintRecords(rs) + rest
            && forall i :: 0 <= i < |rs| ==> rs[i].unpadded < VARINT_END && rs[i].uncompressed < VARINT_END
    decreases |rs|
  {
    hide ParseVarint, Varint;
    if rs == [] {
      assert PrintRecords(rs) + rest == rest;
    } else {
      var r := rs[0];
      var last := PrintRecords(rs[1..]) + rest;
      var middle := Varint(r.uncompressed) + last;
      assert PrintRecords(rs) + rest == Varint(r.unpadded) + middle;
      VarintExact(s, r.unpadded, middle);
      VarintExact(middle, r.uncompressed, last);
      RecordsExact(last, rs[1..], rest);
      if MatchRecords(s, rs) == Some(rest) {
        var u := ParseVarint(s).value;
        var v := ParseVarint(u.rest).value;
        VarintExact(s, u.value, u.rest);
        VarintExact(u.rest, v.value, v.rest);
        RecordsExact(v.rest, rs[1..], rest);
      }
      assert forall i :: 0 < i < |rs| ==> rs[i] == rs[1..][i - 1];
    }
  }

  function ParseIndex(lib: Libraries, s: seq<byte>, rs: seq<Record>): (rest: Option<seq<byte>>)
    requires s != []
  {
    match ParseVarint(s[1..])
    case None => None
    case Some(count) =>
      if count.value != |rs| then None
      else
        match MatchRecords(count.rest, rs)
        case None => None
        case Some(t) =>
          if |t| > |s| then None
          else
            match ParsePadding(Pad(|s| - |t|), t)
            case None => None
            case Some(u) =>
              if |u| < 4 || LeBytes(lib.crc32(s[..|s| - |u|]), 4) != u[..4] then None else Some(u[4..])
  }

  lemma IndexSound(lib: Libraries, s: seq<byte>, rs: seq<Record>, rest: seq<byte>)
    requires s != [] && s[0] == 0 && ParseIndex(lib, s, rs) == Some(rest)
    ensures ValidRecords(rs) && s == Sealed(lib, IndexBody(rs)) + rest
  {
    hide ParseVarint, Varint, MatchRecords, ParsePadding, Pad, Zeros, LeBytes, PrintRecords;
    var count := ParseVarint(s[1..]).value;
    VarintExact(s[1..], count.value, count.rest);
    var t := MatchRecords(count.rest, rs).value;
    RecordsExact(count.rest, rs, t);
    assert s == IndexHead(rs) + t by {
      assert s == [s[0]] + s[1..];
    }
    var u := ParsePadding(Pad(|s| - |t|), t).value;
    PaddingExact(Pad(|s| - |t|), t, u);
    assert s == IndexBody(rs) + u;
    assert s[..|s| - |u|] == IndexBody(rs);
    assert u == u[..4] + u[4..];
  }

  lemma IndexComplete(lib: Libraries, rs: seq<Record>, rest: seq<byte>)
    requires ValidRecords(rs)
    ensures var s := Sealed(lib, IndexBody(rs)) + rest;
            |Sealed(lib, IndexBody(rs))| == IndexSize(rs) && s[0] == 0 && ParseIndex(lib, s, rs) == Some(rest)
  {
    hide ParseVarint, Varint, MatchRecords, ParsePadding, Pad, Zeros, LeBytes, PrintRecords;
    var body := IndexBody(rs);
    var sum := LeBytes(lib.crc32(body), 4);
    var s := Sealed(lib, body) + rest;
    var u := sum + rest;
    var zeros := Zeros(Pad(|IndexHead(rs)|));
    var t := zeros + u;
    assert s == body + u && s == IndexHead(rs) + t;
    assert s[1..] == Varint(|rs|) + (PrintRecords(rs) + t);
    VarintExact(s[1..], |rs|, PrintRecords(rs) + t);
    RecordsExact(PrintRecords(rs) + t, rs, t);
    PaddingExact(Pad(|IndexHead(rs)|), t, u);
    assert s[..|s| - |u|] == body && u[..4] == sum && u[4..] == rest;
  }

  function ParseFooter(lib: Libraries, s: seq<byte>, indexSize: nat, flags: seq<byte>): (rest: Option<seq<byte>>) {
    if |s| < 12 then None
    else if s[10..12] != ['Y' as byte, 'Z' as byte] then None
    else if LeBytes(lib.crc32(s[4..10]), 4) != s[..4] then None
    else if s[8..10] != flags then None
    else if (LeValue(s[4..8]) + 1) * 4 != indexSize then None
    else Some(s[12..])
  }

  lemma FooterSound(lib: Libraries, s: seq<byte>, rs: seq<Record>, flags: seq<byte>, rest: seq<byte>)
    requires |flags| == 2 && ParseFooter(lib, s, IndexSize(rs), flags) == Some(rest)
    ensures IndexSize(rs) / 4 - 1 < 0x1_0000_0000 && s == PrintFooter(lib, rs, flags) + rest
  {
    hide IndexSize, LeBytes, LeValue;
    Pow256Values();
    LeBytesOfValue(s[4..8]);
    assert s[4..10] == s[4..8] + s[8..10];
    assert s == s[..4] + (s[4..10] + s[10..12]) + s[12..];
  }

  lemma FooterComplete(lib: Libraries, rs: seq<Record>, flags: seq<byte>, rest: seq<byte>)
    requires |flags| == 2 && IndexSize(rs) / 4 - 1 < 0x1_0000_0000
    ensures ParseFooter(lib, PrintFooter(lib, rs, flags) + rest, IndexSize(rs), flags) == Some(rest)
  {
    hide IndexSize, LeBytes, LeValue;
    Pow256Values();
    var n := IndexSize(rs) / 4 - 1;
    LeValueOfBytes(n, 4);
    var s := PrintFooter(lib, rs, flags) + rest;
    assert s[4..8] == LeBytes(n, 4) && s[8..10] == flags && s[4..10] == FooterBody(rs, flags);
    assert s[10..12] == ['Y' as byte, 'Z' as byte] && s[12..] == rest;
    assert s[..4] == LeBytes(lib.crc32(FooterBody(rs, flags)), 4);
  }

  /// Everything after the blocks; gives the length of the stream padding.
  function ParseTail(lib: Libraries, s: seq<byte>, rs: seq<Record>, flags: seq<byte>): (padding: Option<nat>)
    requires s != []
  {
    match ParseIndex(lib, s, rs)
    case None => None
    case Some(t) =>
      if |t| > |s| then None
      else
        match ParseFooter(lib, t, |s| - |t|, flags)
        case None => None
        case Some(u) => if |u| % 4 == 0 && AllZero(u) then Some(|u|) else None
  }

  lemma TailExact(lib: Libraries, s: seq<byte>, rs: seq<Record>, flags: seq<byte>, padding: nat)
    requires s != [] && s[0] == 0 && |flags| == 2
    ensures ParseTail(lib, s, rs, flags) == Some(padding) <==>
            ValidTail(rs, padding) && s == PrintTail(lib, rs, flags, padding)
  {
    hide ParseIndex, ParseFooter, Sealed, PrintFooter, IndexSize, ValidRecords;
    if ParseTail(lib, s, rs, flags) == Some(padding) {
      var t := ParseIndex(lib, s, rs).value;
      IndexSound(lib, s, rs, t);
      IndexComplete(lib, rs, t);
      var u := ParseFooter(lib, t, |s| - |t|, flags).value;
      FooterSound(lib, t, rs, flags, u);
      assert u == Zeros(padding);
    }
    if ValidTail(rs, padding) && s == PrintTail(lib, rs, flags, padding) {
      var u := Zeros(padding);
      IndexComplete(lib, rs, PrintFooter(lib, rs, flags) + u);
      FooterComplete(lib, rs, flags, u);
    }
  }

  // ----- whole streams -----

  const MAGIC: seq<byte> := [0xFD, 0x37, 0x7A, 0x58, 0x5A, 0x00]

  /// A stream: the flags byte naming the check, the blocks, and the padding behind it.
  datatype Stream = Stream(flags: byte, blocks: seq<Block>, padding: nat)

  predicate ValidStream(lib: Libraries, d: Stream) {
    && CheckSize(d.flags % 16).Some?
    && ValidBlocks(lib, d.flags % 16, d.blocks)
    && ValidTail(Records(lib, d.flags % 16, d.blocks), d.padding)
  }

  function StreamHeader(lib: Libraries, flags: byte): seq<byte> { MAGIC + Sealed(lib, [0, flags]) }

  function PrintStream(lib: Libraries, d: Stream): seq<byte>
    requires ValidStream(lib, d)
  {
    StreamHeader(lib, d.flags)
    + (PrintBlocks(lib, d.flags % 16, d.blocks)
       + PrintTail(lib, Records(lib, d.flags % 16, d.blocks), [0, d.flags], d.padding))
  }

  /// What the blocks hold, in order.
  function Contents(lib: Libraries, bs: seq<Block>): seq<byte>
    requires forall i :: 0 <= i < |bs| ==> Decodes(lib, bs[i].payload)
  {
    if bs == [] then [] else Data(lib, bs[0]) + Contents(lib, bs[1..])
  }

  function ParseStream(lib: Libraries, s: seq<byte>): (d: Option<Stream>) {
    if |s| < 12 || s[..6] != MAGIC then None
    else if lib.crc32(s[6..8]) != LeValue(s[8..12]) || s[6] != 0 then None
    else if CheckSize(s[7] % 16).None? then None
    else
      match ParseBlocks(lib, s[7] % 16, s[12..])
      case None => None
      case Some(bs) =>
        if bs.rest == [] || !ValidBlocks(lib, s[7] % 16, bs.value) then None
        else
          match ParseTail(lib, bs.rest, Records(lib, s[7] % 16, bs.value), s[6..8])
          case None => None
          case Some(padding) => Some(Stream(s[7], bs.value, padding))
  }

  /// The reader's grammar is the format: it accepts exactly the printed streams, each as
  /// the stream that was printed.
  lemma StreamExact(lib: Libraries, s: seq<byte>, d: Stream)
    requires SelfDelimiting(lib)
    ensures ParseStream(lib, s) == Some(d) <==> ValidStream(lib, d) && s == PrintStream(lib, d)
  {
    if ParseStream(lib, s) == Some(d) {
      StreamSound(lib, s, d);
    }
    if ValidStream(lib, d) && s == PrintStream(lib, d) {
      StreamComplete(lib, d);
    }
  }

  lemma HeaderBytes(lib: Libraries, s: seq<byte>, flags: byte)
    requires |s| >= 12
    ensures s[..12] == StreamHeader(lib, flags) <==>
            s[..6] == MAGIC && s[6] == 0 && s[7] == flags && lib.crc32(s[6..8]) == LeValue(s[8..12])
  {
    hide LeValue;
    var body: seq<byte> := [0, flags];
    SealedExact(lib, s[6..12], body);
    assert s[6..12][2..] == s[8..12] && s[6..12][..2] == s[6..8];
    assert s[..12] == s[..6] + s[6..12];
    assert s[6..8] == [s[6], s[7]];
  }

  lemma StreamSound(lib: Libraries, s: seq<byte>, d: Stream)
    requires SelfDelimiting(lib) && ParseStream(lib, s) == Some(d)
    ensures ValidStream(lib, d) && s == PrintStream(lib, d)
  {
    hide ParseBlocks, ParseTail, PrintBlocks, PrintTail, StreamHeader, Records, ValidBlocks, SelfDelimiting,
        ValidTail, LeValue;
    var check := s[7] % 16;
    var bs := ParseBlocks(lib, check, s[12..]).value;
    BlocksSound(lib, check, s[12..]);
    TailExact(lib, bs.rest, Records(lib, check, bs.value), s[6..8], d.padding);
    HeaderBytes(lib, s, s[7]);
    assert s[6..8] == [0, s[7]];
    assert s == s[..12] + s[12..];
  }

  lemma StreamComplete(lib: Libraries, d: Stream)
    requires SelfDelimiting(lib) && ValidStream(lib, d)
    ensures ParseStream(lib, PrintStream(lib, d)) == Some(d)
  {
    hide ParseBlocks, ParseTail, PrintBlocks, PrintTail, StreamHeader, Records, ValidBlocks, SelfDelimiting,
        ValidTail, LeValue;
    var check := d.flags % 16;
    var rs, flags: seq<byte> := Records(lib, check, d.blocks), [0, d.flags];
    var tail := PrintTail(lib, rs, flags, d.padding);
    var s := PrintStream(lib, d);
    StreamHeaderSize(lib, d.flags);
    assert s[..12] == StreamHeader(lib, d.flags);
    HeaderBytes(lib, s, d.flags);
    assert s[6..8] == flags;
    TailStarts(lib, rs, flags, d.padding);
    BlocksComplete(lib, check, d.blocks, tail);
    TailExact(lib, tail, rs, flags, d.padding);
    assert s[12..] == PrintBlocks(lib, check, d.blocks) + tail;
  }

  lemma StreamHeaderSize(lib: Libraries, flags: byte)
    ensures |StreamHeader(lib, flags)| == 12
  {
  }

  lemma TailStarts(lib: Libraries, rs: seq<Record>, flags: seq<byte>, padding: nat)
    ensures var t := PrintTail(lib, rs, flags, padding); t != [] && t[0] == 0
  {
    hide Varint, PrintRecords, PrintFooter;
  }
}
