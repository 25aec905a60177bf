/// What a stream's sizes add up to, and a whole stream byte by byte: the container of
/// src/xz.rs, said without its printers' parts.
module XzAccounts {
  import opened Bytes
  import opened BcjX86
  import opened Bcj
  import opened XzFormat
  import opened XzReader
  import X86Reference
  import Crc64

  // ----- sizes -----

  /// A size with its padding to a multiple of four.
  function RoundedUp(n: nat): nat { (n + 3) / 4 * 4 }

  /// A block's index record gives what the block takes up without its padding, section 4.3,
  /// and what it holds.
  lemma BlockAccounted(lib: Libraries, check: nat, b: Block)
    requires ValidBlock(lib, check, b)
    ensures var r := RecordOf(lib, check, b);
            && r.unpadded == |PrintHeader(lib, b.header)| + |b.payload| + |CheckBytes(lib, check, Data(lib, b))|
            && |PrintBlock(lib, check, b)| == r.unpadded + Pad(|b.payload|)
            && r.uncompressed == |Data(lib, b)|
  {
    hide PrintHeader, CheckBytes, HeaderSize, Data, Pad, ValidHeader, PrintBlock, Decodes, CheckSize;
    HeaderComplete(lib, b.header, []);
    PartsOf(lib, check, b);
  }

  /// A block takes up its unpadded size, rounded up to four.
  lemma BlockRoundedUp(lib: Libraries, check: nat, b: Block)
    requires ValidBlock(lib, check, b)
    ensures |PrintBlock(lib, check, b)| == RoundedUp(RecordOf(lib, check, b).unpadded)
  {
    hide PrintHeader, CheckBytes, HeaderSize, Data, Pad, RoundedUp, ValidHeader, PrintBlock, Decodes, CheckSize;
    BlockAccounted(lib, check, b);
    HeaderInFours(b.header);
    CheckInFours(check);
    InFours(HeaderSize(b.header), |b.payload|, CheckSize(check).value);
  }

  lemma PartsOf(lib: Libraries, check: nat, b: Block)
    requires ValidBlock(lib, check, b)
    ensures |PrintBlock(lib, check, b)|
            == |PrintHeader(lib, b.header)| + |b.payload| + Pad(|b.payload|) + |CheckBytes(lib, check, Data(lib, b))|
  {
    hide PrintHeader, CheckBytes, Data, Pad, ValidHeader, Decodes;
  }

  lemma CheckInFours(check: nat)
    requires Verifiable(check)
    ensures CheckSize(check).Some? && CheckSize(check).value % 4 == 0
  {
  }

  lemma HeaderInFours(h: Header)
    requires ValidHeader(h)
    ensures HeaderSize(h) % 4 == 0
  {
  }

  lemma InFours(h: nat, n: nat, c: nat)
    requires h % 4 == 0 && c % 4 == 0
    ensures h + n + c + Pad(n) == RoundedUp(h + n + c)
  {
  }

  function BlockSizes(rs: seq<Record>): nat { if rs == [] then 0 else RoundedUp(rs[0].unpadded) + BlockSizes(rs[1..]) }

  function HeldSizes(rs: seq<Record>): nat { if rs == [] then 0 else rs[0].uncompressed + HeldSizes(rs[1..]) }

  lemma {:induction false} BlocksAccounted(lib: Libraries, check: nat, bs: seq<Block>)
    requires ValidBlocks(lib, check, bs)
    ensures |PrintBlocks(lib, check, bs)| == BlockSizes(Records(lib, check, bs))
    ensures forall i :: 0 <= i < |bs| ==> Decodes(lib, bs[i].payload)
    ensures |Contents(lib, bs)| == HeldSizes(Records(lib, check, bs))
    decreases |bs|
  {
    hide ValidBlock, PrintBlock, RecordOf, Data, Decodes;
    DecodesWhenValid(lib, check, bs);
    if bs != [] {
      BlockAccounted(lib, check, bs[0]);
      BlockRoundedUp(lib, check, bs[0]);
      BlocksAccounted(lib, check, bs[1..]);
      assert Records(lib, check, bs)[1..] == Records(lib, check, bs[1..]);
    }
  }

  /// Every byte of a stream is accounted for: its header, its blocks at the sizes the index
  /// gives them, each rounded up to four, the index, the footer and the padding; and the
  /// sizes the index gives for what the blocks hold add up to what the stream holds.
  lemma StreamAccounted(lib: Libraries, s: seq<byte>, d: Stream)
    requires SelfDelimiting(lib) && ParseStream(lib, s) == Some(d)
    ensures ValidStream(lib, d)
    ensures var rs := Records(lib, d.flags % 16, d.blocks);
            && |s| == 12 + BlockSizes(rs) + IndexSize(rs) + 12 + d.padding
            && |Holds(lib, d)| == HeldSizes(rs) && |rs| == |d.blocks|
            && forall i :: 0 <= i < |rs| ==> rs[i] == RecordOf(lib, d.flags % 16, d.blocks[i])
  {
    hide ParseStream, PrintBlocks, Records, IndexSize, IndexBody, FooterBody, StreamHeader, SelfDelimiting, LeBytes,
      ValidBlocks;
    StreamExact(lib, s, d);
    var check := d.flags % 16;
    BlocksAccounted(lib, check, d.blocks);
    StreamHeaderSize(lib, d.flags);
    TailAccounted(lib, Records(lib, check, d.blocks), [0, d.flags], d.padding);
    RecordsAre(lib, check, d.blocks);
  }

  lemma RecordsAre(lib: Libraries, check: nat, bs: seq<Block>)
    requires ValidBlocks(lib, check, bs)
    ensures var rs := Records(lib, check, bs);
            |rs| == |bs| && forall i :: 0 <= i < |rs| ==> rs[i] == RecordOf(lib, check, bs[i])
  {
    hide RecordOf, ValidBlock;
  }

  lemma TailAccounted(lib: Libraries, rs: seq<Record>, flags: seq<byte>, padding: nat)
    requires |flags| == 2
    ensures |PrintTail(lib, rs, flags, padding)| == IndexSize(rs) + 12 + padding
  {
    hide IndexBody, LeBytes;
  }

  // ----- the constants -----

  function FilterBytes(kind: Bcj, start: Option<u32>): seq<byte> {
    PrintFilter(ConverterFilter(Converter(kind, start)))
  }

  /// The filter ids of section 5.3.2, without a start offset and with one.
  lemma FilterIds(start: u32)
    ensures FilterBytes(X86, None) == [4, 0] && FilterBytes(PowerPc, None) == [5, 0]
    ensures FilterBytes(Ia64, None) == [6, 0] && FilterBytes(Arm, None) == [7, 0]
    ensures FilterBytes(ArmThumb, None) == [8, 0] && FilterBytes(Sparc, None) == [9, 0]
    ensures FilterBytes(X86, Some(start)) == [4, 4] + LeBytes(start, 4)
    ensures forall size: byte :: PrintFilter(LastFilter(size)) == [0x21, 1, size]
  {
    hide LeBytes;
    assert [4, 4] + LeBytes(start, 4) == [4] + ([4] + LeBytes(start, 4));
  }

  /// Which check the low flag bits ask for: none, CRC32 or CRC64, each lowest byte first.
  lemma Checks(lib: Libraries, data: seq<byte>)
    ensures forall check :: Verifiable(check) <==> check == 0 || check == 1 || check == 4
    ensures CheckBytes(lib, 0, data) == [] && CheckBytes(lib, 1, data) == LeBytes(lib.crc32(data), 4)
    ensures CheckBytes(lib, 4, data) == Crc64.ToLeBytes(Crc64.Crc(data))
    ensures forall check :: CheckSize(check).Some? <==> check == 0 || check == 1 || check == 4 || check == 10
  {
  }

  // ----- a whole stream -----

  const HELLO: seq<byte> := [0x68, 0x65, 0x6C, 0x6C, 0x6F]
  const PAYLOAD: seq<byte> := [0x01, 0x00, 0x04, 0x68, 0x65, 0x6C, 0x6C, 0x6F, 0x00]

  /// Libraries that give the five checksums and the one payload of the example.
  predicate Example(lib: Libraries) {
    && lib.crc32([0x00, 0x01]) == 0x36DE_2269
    && lib.crc32([0x02, 0x01, 0x04, 0x00, 0x21, 0x01, 0x16, 0x00]) == 0x1F35_860D
    && lib.crc32(HELLO) == 0x3610_A686
    && lib.crc32([0x00, 0x01, 0x19, 0x05]) == 0xCBEC_E8BC
    && lib.crc32([0x01, 0x00, 0x00, 0x00, 0x00, 0x01]) == 0x0D99_4290
    && lib.lzma2(PAYLOAD) == Some(Decoded(9, HELLO))
  }

  function ExampleBytes(): seq<byte> {
    [0xFD, 0x37, 0x7A, 0x58, 0x5A, 0x00, 0x00, 0x01, 0x69, 0x22, 0xDE, 0x36]
    + [0x02, 0x01, 0x04, 0x00, 0x21, 0x01, 0x16, 0x00, 0x0D, 0x86, 0x35, 0x1F]
    + PAYLOAD + [0x00, 0x00, 0x00] + [0x86, 0xA6, 0x10, 0x36]
    + [0x00, 0x01, 0x19, 0x05, 0xBC, 0xE8, 0xEC, 0xCB]
    + [0x90, 0x42, 0x99, 0x0D, 0x01, 0x00, 0x00, 0x00, 0x00, 0x01, 0x59, 0x5A]
  }

  function ExampleHeader(): Header { Header(None, None, Chain(Some(Converter(X86, None)), 0x16), 1) }

  function ExampleStream(): Stream { Stream(0x01, [Block(ExampleHeader(), PAYLOAD)], 0) }

  lemma FourBytes(v: u32)
    ensures LeBytes(v, 4) == [v % 0x100, v / 0x100 % 0x100, v / 0x1_0000 % 0x100, v / 0x100_0000]
  {
    var a := v / 0x100;
    assert LeBytes(v, 4) == [v % 256] + LeBytes(a, 3);
    assert LeBytes(a, 3) == [a % 256] + LeBytes(a / 256, 2);
    assert LeBytes(a / 256, 2) == [a / 256 % 256] + LeBytes(a / 256 / 256, 1);
    assert LeBytes(a / 256 / 256, 1) == [a / 256 / 256 % 256] + LeBytes(a / 256 / 256 / 256, 0);
  }

  lemma ExampleFields()
    ensures HeaderFields(ExampleHeader()) == [0x04, 0x00, 0x21, 0x01, 0x16, 0x00]
  {
    hide LeBytes, PrintFilter;
    var h := ExampleHeader();
    FilterIds(0);
    assert PrintChain(h.chain) == [4, 0] + [0x21, 1, 0x16];
  }

  lemma ExampleHeaderBytes(lib: Libraries)
    requires Example(lib)
    ensures ValidHeader(ExampleHeader())
    ensures PrintHeader(lib, ExampleHeader())
            == [0x02, 0x01, 0x04, 0x00, 0x21, 0x01, 0x16, 0x00, 0x0D, 0x86, 0x35, 0x1F]
  {
    hide LeBytes, PrintFilter, Example, HeaderFields, PrintChain;
    var h := ExampleHeader();
    ExampleFields();
    assert HeaderBody(h) == [0x02, 0x01, 0x04, 0x00, 0x21, 0x01, 0x16, 0x00];
    FourBytes(0x1F35_860D);
    ExampleSums(lib);
  }

  lemma ExampleSums(lib: Libraries)
    requires Example(lib)
    ensures lib.crc32([0x02, 0x01, 0x04, 0x00, 0x21, 0x01, 0x16, 0x00]) == 0x1F35_860D
    ensures lib.crc32(HELLO) == 0x3610_A686 && lib.crc32([0x00, 0x01]) == 0x36DE_2269
    ensures lib.crc32([0x00, 0x01, 0x19, 0x05]) == 0xCBEC_E8BC
    ensures lib.crc32([0x01, 0x00, 0x00, 0x00, 0x00, 0x01]) == 0x0D99_4290
  {
  }

  lemma ExampleData(lib: Libraries)
    requires Example(lib)
    ensures var b := Block(ExampleHeader(), PAYLOAD);
            ValidBlock(lib, 1, b) && Data(lib, b) == HELLO
  {
    hide LeBytes, PrintHeader, BcjX86.X86, ValidHeader;
    ExampleHeaderBytes(lib);
    X86Reference.NoInstructions(Decode, 0, HELLO);
  }

  lemma ExampleBlock(lib: Libraries)
    requires Example(lib)
    ensures var b := Block(ExampleHeader(), PAYLOAD);
            && ValidBlock(lib, 1, b) && Data(lib, b) == HELLO
            && PrintBlock(lib, 1, b)
               == [0x02, 0x01, 0x04, 0x00, 0x21, 0x01, 0x16, 0x00, 0x0D, 0x86, 0x35, 0x1F]
                  + PAYLOAD + [0x00, 0x00, 0x00] + [0x86, 0xA6, 0x10, 0x36]
            && RecordOf(lib, 1, b) == Record(0x19, 5)
  {
    hide LeBytes, PrintHeader, Data, ValidBlock, HeaderSize, Example;
    var b := Block(ExampleHeader(), PAYLOAD);
    ExampleHeaderBytes(lib);
    ExampleData(lib);
    ExampleSums(lib);
    FourBytes(0x3610_A686);
    assert Zeros(Pad(9)) == [0x00, 0x00, 0x00];
    BlockAccounted(lib, 1, b);
  }

  const LINES: seq<Record> := [Record(0x19, 5)]

  lemma ExampleIndex(lib: Libraries)
    requires Example(lib)
    ensures IndexBody(LINES) == [0x00, 0x01, 0x19, 0x05] && IndexSize(LINES) == 8
    ensures Sealed(lib, IndexBody(LINES)) == [0x00, 0x01, 0x19, 0x05, 0xBC, 0xE8, 0xEC, 0xCB]
  {
    hide LeBytes, Example;
    assert PrintRecords(LINES[1..]) == [];
    assert IndexHead(LINES) == [0x00, 0x01, 0x19, 0x05];
    FourBytes(0xCBEC_E8BC);
    ExampleSums(lib);
  }

  lemma ExampleFooter(lib: Libraries)
    requires Example(lib)
    ensures PrintFooter(lib, LINES, [0, 1])
            == [0x90, 0x42, 0x99, 0x0D, 0x01, 0x00, 0x00, 0x00, 0x00, 0x01, 0x59, 0x5A]
  {
    hide LeBytes, Example, IndexSize;
    ExampleIndex(lib);
    FourBytes(0x0D99_4290);
    FourBytes(1);
    assert FooterBody(LINES, [0, 1]) == [0x01, 0x00, 0x00, 0x00, 0x00, 0x01];
    ExampleSums(lib);
  }

  lemma ExampleStart(lib: Libraries)
    requires Example(lib)
    ensures StreamHeader(lib, 1) == [0xFD, 0x37, 0x7A, 0x58, 0x5A, 0x00, 0x00, 0x01, 0x69, 0x22, 0xDE, 0x36]
  {
    hide LeBytes, Example;
    FourBytes(0x36DE_2269);
    ExampleSums(lib);
  }

  lemma ExampleValid(lib: Libraries)
    requires Example(lib)
    ensures var d := ExampleStream();
            && ValidStream(lib, d) && Records(lib, 1, d.blocks) == LINES
            && PrintBlocks(lib, 1, d.blocks) == PrintBlock(lib, 1, d.blocks[0]) && Holds(lib, d) == HELLO
  {
    hide PrintBlock, ValidBlock, RecordOf, Example, Data, ValidHeader, IndexSize;
    ExampleBlock(lib);
    ExampleIndex(lib);
    var d := ExampleStream();
    assert Records(lib, 1, d.blocks) == LINES;
    assert PrintBlocks(lib, 1, d.blocks[1..]) == [] && Contents(lib, d.blocks[1..]) == [];
  }

  /// The sixty bytes of the stream that holds `hello` behind the x86 filter under a CRC32
  /// check: header, one block, index and footer, and the reader's grammar takes them.
  lemma ExampleReads(lib: Libraries)
    requires SelfDelimiting(lib) && Example(lib)
    ensures ParseStream(lib, ExampleBytes()) == Some(ExampleStream())
    ensures ValidStream(lib, ExampleStream()) && Holds(lib, ExampleStream()) == HELLO
  {
    hide PrintBlock, ValidBlock, RecordOf, ParseStream, SelfDelimiting, Holds, Example, PrintFooter, Sealed,
         ValidStream, StreamHeader, PrintBlocks, Records, IndexBody;
    ExampleValid(lib);
    ExampleBlock(lib);
    ExampleIndex(lib);
    ExampleFooter(lib);
    ExampleStart(lib);
    ExampleValidParts(lib);
    assert PrintStream(lib, ExampleStream()) == ExampleBytes();
    StreamExact(lib, ExampleBytes(), ExampleStream());
  }

  lemma ExampleValidParts(lib: Libraries)
    requires ValidStream(lib, ExampleStream())
    ensures ValidBlocks(lib, 1, ExampleStream().blocks) && ExampleStream().flags % 16 == 1
  {
  }
}
