/// What an inode looks like on disk, and that src/inode.rs reads exactly that.
module InodeFormat {
  import opened Bytes
  import opened Image
  import opened Cursor
  import opened Inode

  // ----- words of given sizes -----

  predicate WordsFit(vs: seq<nat>, sizes: seq<nat>) {
    |vs| == |sizes| && forall k :: 0 <= k < |vs| ==> vs[k] < Pow256(sizes[k])
  }

  function PrintWords(vs: seq<nat>, sizes: seq<nat>): seq<byte>
    requires |vs| == |sizes|
  {
    if vs == [] then [] else LeBytes(vs[0], sizes[0]) + PrintWords(vs[1..], sizes[1..])
  }

  lemma {:induction false} WordsFront(vs: seq<nat>, sizes: seq<nat>, t: Tail)
    requires WordsFit(vs, sizes)
    ensures TakeWords(Prepend(PrintWords(vs, sizes), t), sizes) == Taken(Ok(vs), t)
    decreases |vs|
  {
    hide TakeWord;
    if vs == [] {
      assert [] + t.bytes == t.bytes;
    } else {
      var more := PrintWords(vs[1..], sizes[1..]);
      PrependAssociates(LeBytes(vs[0], sizes[0]), more, t);
      WordFront(vs[0], sizes[0], Prepend(more, t));
      WordsFront(vs[1..], sizes[1..], t);
      assert vs == [vs[0]] + vs[1..];
    }
  }

  lemma {:induction false} WordsWereFront(t: Tail, sizes: seq<nat>)
    requires TakeWords(t, sizes).r.Ok?
    ensures var k := TakeWords(t, sizes);
            WordsFit(k.r.value, sizes) && t == Prepend(PrintWords(k.r.value, sizes), k.rest)
    decreases |sizes|
  {
    hide TakeWord;
    if sizes == [] {
      assert [] + t.bytes == t.bytes;
    } else {
      var first := TakeWord(t, sizes[0]);
      TakenWasFront(t, sizes[0]);
      WordsWereFront(first.rest, sizes[1..]);
      var more := TakeWords(first.rest, sizes[1..]);
      PrependAssociates(LeBytes(first.r.value, sizes[0]), PrintWords(more.r.value, sizes[1..]), more.rest);
      assert ([first.r.value] + more.r.value)[1..] == more.r.value;
    }
  }

  // ----- records -----

  /// An inode as it is stored: the common header, its type's fields, and what has a length
  /// of its own.
  datatype Record = Record(header: seq<nat>, fields: seq<nat>, tail: RecordTail)

  datatype RecordTail =
    | BlockSizes(sizes: seq<nat>)
    | Target(bytes: seq<byte>)
    | TargetAndXattr(bytes: seq<byte>, xattr: nat)
    | Nothing

  predicate LegalHead(rec: Record) {
    && WordsFit(rec.header, HEADER) && Layout(rec.header[0]).Some?
    && WordsFit(rec.fields, Layout(rec.header[0]).value)
  }

  /// Of a known type, with as much behind the fields as they announce.
  predicate Legal(rec: Record, blockSize: nat)
    requires blockSize > 0
  {
    && LegalHead(rec)
    && var i := Assemble(rec.header, rec.fields);
       match rec.tail
       case BlockSizes(sizes) =>
         i.IsRegularFile() && BlockCount(i.fileSize, blockSize, i.fragmentIndex) == Ok(|sizes|)
             && WordsFit(sizes, Fours(|sizes|))
       case Target(bytes) => i.inodeType == 3 && |bytes| == i.fileSize <= 65536
       case TargetAndXattr(bytes, x) => i.inodeType == 10 && |bytes| == i.fileSize <= 65536 && x < 0x1_0000_0000
       case Nothing => !i.IsRegularFile() && TypeOf(i.inodeType) != Symlink
  }

  function PrintTail(tail: RecordTail): seq<byte> {
    match tail
    case BlockSizes(sizes) => PrintWords(sizes, Fours(|sizes|))
    case Target(bytes) => bytes
    case TargetAndXattr(bytes, x) => bytes + LeBytes(x, 4)
    case Nothing => []
  }

  function PrintRecord(rec: Record): seq<byte>
    requires LegalHead(rec)
  {
    PrintWords(rec.header, HEADER) + (PrintWords(rec.fields, Layout(rec.header[0]).value) + PrintTail(rec.tail))
  }

  /// The inode a record stores.
  function Meaning(rec: Record): Inode
    requires LegalHead(rec)
  {
    var i := Assemble(rec.header, rec.fields);
    match rec.tail
    case BlockSizes(sizes) => i.(blockSizes := sizes)
    case Target(bytes) => i.(symlinkTarget := bytes)
    case TargetAndXattr(bytes, x) => i.(symlinkTarget := bytes, xattrIndex := x)
    case Nothing => i
  }

  lemma TailFront(rec: Record, blockSize: nat, t: Tail)
    requires blockSize > 0 && Legal(rec, blockSize)
    ensures TakeBody(Prepend(PrintTail(rec.tail), t), Assemble(rec.header, rec.fields), blockSize) == Ok(Meaning(rec))
  {
    hide Take, TakeWord, TakeWords, BlockCount, Layout, Assemble;
    match rec.tail
    case BlockSizes(sizes) => WordsFront(sizes, Fours(|sizes|), t);
    case Target(bytes) => TakeFront(bytes, t);
    case TargetAndXattr(bytes, x) =>
      Pow256Values();
      PrependAssociates(bytes, LeBytes(x, 4), t);
      TakeFront(bytes, Prepend(LeBytes(x, 4), t));
      WordFront(x, 4, t);
    case Nothing =>
  }

  /// A printed record is read back as the inode it stores, whatever follows it.
  lemma RecordRoundTrip(rec: Record, blockSize: nat, t: Tail)
    requires blockSize > 0 && Legal(rec, blockSize)
    ensures TakeInode(Prepend(PrintRecord(rec), t), blockSize) == Ok(Meaning(rec))
  {
    hide TakeWords, TakeBody, BlockCount, Layout, Assemble, PrintWords;
    var fields, tail := PrintWords(rec.fields, Layout(rec.header[0]).value), PrintTail(rec.tail);
    PrependAssociates(PrintWords(rec.header, HEADER), fields + tail, t);
    PrependAssociates(fields, tail, t);
    WordsFront(rec.header, HEADER, Prepend(fields, Prepend(tail, t)));
    WordsFront(rec.fields, Layout(rec.header[0]).value, Prepend(tail, t));
    TailFront(rec, blockSize, t);
  }

  lemma TailWasFront(header: seq<nat>, fields: seq<nat>, blockSize: nat, t: Tail) returns (rec: Record, rest: Tail)
    requires blockSize > 0 && LegalHead(Record(header, fields, Nothing))
        && TakeBody(t, Assemble(header, fields), blockSize).Ok?
    ensures rec.header == header && rec.fields == fields && Legal(rec, blockSize)
    ensures t == Prepend(PrintTail(rec.tail), rest)
    ensures TakeBody(t, Assemble(header, fields), blockSize) == Ok(Meaning(rec))
  {
    hide Take, TakeWord, TakeWords, BlockCount, Layout;
    var i := Assemble(header, fields);
    if i.IsRegularFile() {
      var n := BlockCount(i.fileSize, blockSize, i.fragmentIndex).value;
      WordsWereFront(t, Fours(n));
      rest := TakeWords(t, Fours(n)).rest;
      rec := Record(header, fields, BlockSizes(TakeWords(t, Fours(n)).r.value));
    } else if TypeOf(i.inodeType) == Symlink {
      var k := Take(t, i.fileSize);
      if i.inodeType == 3 {
        rec, rest := Record(header, fields, Target(k.r.value)), k.rest;
      } else {
        Pow256Values();
        var x := TakeWord(k.rest, 4);
        TakenWasFront(k.rest, 4);
        PrependAssociates(k.r.value, LeBytes(x.r.value, 4), x.rest);
        rec, rest := Record(header, fields, TargetAndXattr(k.r.value, x.r.value)), x.rest;
      }
    } else {
      assert [] + t.bytes == t.bytes;
      rec, rest := Record(header, fields, Nothing), t;
    }
  }

  /// Whatever is read as an inode is the print of a legal record that stores it.
  lemma RecordSound(t: Tail, blockSize: nat) returns (rec: Record, rest: Tail)
    requires blockSize > 0 && TakeInode(t, blockSize).Ok?
    ensures Legal(rec, blockSize) && t == Prepend(PrintRecord(rec), rest) && TakeInode(t, blockSize) == Ok(Meaning(rec))
  {
    hide TakeWords, TakeBody, BlockCount, Layout, Assemble, PrintWords;
    var header := TakeWords(t, HEADER);
    var layout := Layout(header.r.value[0]).value;
    var fields := TakeWords(header.rest, layout);
    WordsWereFront(t, HEADER);
    WordsWereFront(header.rest, layout);
    rec, rest := TailWasFront(header.r.value, fields.r.value, blockSize, fields.rest);
    PrependAssociates(PrintWords(fields.r.value, layout), PrintTail(rec.tail), rest);
    var back := PrintWords(fields.r.value, layout) + PrintTail(rec.tail);
    PrependAssociates(PrintWords(header.r.value, HEADER), back, rest);
  }

  // ----- where each field lies -----

  /// The n-byte word at `at` is v.
  predicate FieldIs(b: seq<byte>, at: nat, n: nat, v: nat) { at + n <= |b| && LeValue(b[at..at + n]) == v }

  function OffsetOf(sizes: seq<nat>, k: nat): nat
    requires k <= |sizes|
  {
    if k == 0 then 0 else OffsetOf(sizes, k - 1) + sizes[k - 1]
  }

  lemma {:induction false} OffsetFromFront(sizes: seq<nat>, k: nat)
    requires 0 < k <= |sizes|
    ensures OffsetOf(sizes, k) == sizes[0] + OffsetOf(sizes[1..], k - 1)
  {
    if k > 1 {
      OffsetFromFront(sizes, k - 1);
    }
  }

  lemma {:induction false} WordsAtOffsets(t: Tail, sizes: seq<nat>, k: nat)
    requires TakeWords(t, sizes).r.Ok? && k <= |sizes|
    ensures OffsetOf(sizes, k) <= |t.bytes|
    ensures k == |sizes| ==> TakeWords(t, sizes).rest.bytes == t.bytes[OffsetOf(sizes, k)..]
    ensures k < |sizes| ==> FieldIs(t.bytes, OffsetOf(sizes, k), sizes[k], TakeWords(t, sizes).r.value[k])
    decreases |sizes|
  {
    hide TakeWord, FieldIs, OffsetOf, Pow256;
    NoOffset(sizes);
    if sizes != [] {
      var first := TakeWord(t, sizes[0]);
      FirstField(t, sizes[0]);
      if k > 0 {
        OffsetFromFront(sizes, k);
        WordsAtOffsets(first.rest, sizes[1..], k - 1);
        Later(t.bytes, sizes[0], OffsetOf(sizes[1..], k - 1), 0);
        if k < |sizes| {
          FieldLater(t.bytes, sizes[0], OffsetOf(sizes[1..], k - 1), sizes[k], TakeWords(t, sizes).r.value[k]);
        }
      }
    }
  }

  lemma NoOffset(sizes: seq<nat>)
    ensures OffsetOf(sizes, 0) == 0
  {
  }

  lemma FirstField(t: Tail, n: nat)
    requires TakeWord(t, n).r.Ok?
    ensures FieldIs(t.bytes, 0, n, TakeWord(t, n).r.value)
    ensures n <= |t.bytes| && TakeWord(t, n).rest.bytes == t.bytes[n..]
  {
  }

  lemma FieldLater(b: seq<byte>, from: nat, at: nat, n: nat, v: nat)
    requires from <= |b| && FieldIs(b[from..], at, n, v)
    ensures FieldIs(b, from + at, n, v)
  {
    Later(b, from, at, n);
  }

  lemma Later(b: seq<byte>, from: nat, at: nat, n: nat)
    requires from + at <= |b|
    ensures b[from..][at..] == b[from + at..]
    ensures from + at + n <= |b| ==> b[from..][at..at + n] == b[from + at..from + at + n]
  {
  }

  lemma Offsets(s: seq<nat>)
    ensures |s| >= 1 ==> OffsetOf(s, 0) == 0 && OffsetOf(s, 1) == s[0]
    ensures |s| >= 2 ==> OffsetOf(s, 2) == s[0] + s[1]
    ensures |s| >= 3 ==> OffsetOf(s, 3) == s[0] + s[1] + s[2]
    ensures |s| >= 4 ==> OffsetOf(s, 4) == s[0] + s[1] + s[2] + s[3]
    ensures |s| >= 5 ==> OffsetOf(s, 5) == s[0] + s[1] + s[2] + s[3] + s[4]
    ensures |s| >= 6 ==> OffsetOf(s, 6) == s[0] + s[1] + s[2] + s[3] + s[4] + s[5]
    ensures |s| >= 7 ==> OffsetOf(s, 7) == s[0] + s[1] + s[2] + s[3] + s[4] + s[5] + s[6]
  {
    if |s| >= 3 {
      assert OffsetOf(s, 1) == s[0] && OffsetOf(s, 2) == s[0] + s[1] && OffsetOf(s, 3) == s[0] + s[1] + s[2];
    }
    if |s| >= 6 {
      assert OffsetOf(s, 4) == OffsetOf(s, 3) + s[3] && OffsetOf(s, 5) == OffsetOf(s, 4) + s[4]
          && OffsetOf(s, 6) == OffsetOf(s, 5) + s[5];
    }
  }

  predicate HeaderAt(b: seq<byte>, i: Inode) {
    && FieldIs(b, 0, 2, i.inodeType) && FieldIs(b, 2, 2, i.permissions) && FieldIs(b, 4, 2, i.uidIndex)
    && FieldIs(b, 6, 2, i.gidIndex) && FieldIs(b, 8, 4, i.mtime) && FieldIs(b, 12, 4, i.number)
  }

  /// The fields of each type, by their offsets from the inode's first byte; those a type
  /// does not store have their defaults.
  predicate FieldsAt(b: seq<byte>, i: Inode) {
    match i.inodeType
    case 1 =>
      && FieldIs(b, 16, 4, i.dirStartBlock) && FieldIs(b, 20, 4, i.nlink) && FieldIs(b, 24, 2, i.fileSize)
      && FieldIs(b, 26, 2, i.dirBlockOffset) && i.xattrIndex == INVALID_XATTR
    case 2 =>
      && FieldIs(b, 16, 4, i.blocksStart) && FieldIs(b, 20, 4, i.fragmentIndex) && FieldIs(b, 24, 4, i.fragmentOffset)
      && FieldIs(b, 28, 4, i.fileSize) && i.nlink == 1 && i.xattrIndex == INVALID_XATTR
    case 3 => FieldIs(b, 16, 4, i.nlink) && FieldIs(b, 20, 4, i.fileSize) && i.xattrIndex == INVALID_XATTR
    case 4 | 5 => FieldIs(b, 16, 4, i.nlink) && FieldIs(b, 20, 4, i.rdev) && i.xattrIndex == INVALID_XATTR
    case 6 | 7 => FieldIs(b, 16, 4, i.nlink) && i.xattrIndex == INVALID_XATTR
    case 8 =>
      && FieldIs(b, 16, 4, i.nlink) && FieldIs(b, 20, 4, i.fileSize) && FieldIs(b, 24, 4, i.dirStartBlock)
      && FieldIs(b, 34, 2, i.dirBlockOffset) && FieldIs(b, 36, 4, i.xattrIndex)
    case 9 =>
      && FieldIs(b, 16, 8, i.blocksStart) && FieldIs(b, 24, 8, i.fileSize) && FieldIs(b, 40, 4, i.nlink)
      && FieldIs(b, 44, 4, i.fragmentIndex) && FieldIs(b, 48, 4, i.fragmentOffset) && FieldIs(b, 52, 4, i.xattrIndex)
    case 10 => FieldIs(b, 16, 4, i.nlink) && FieldIs(b, 20, 4, i.fileSize)
    case 11 | 12 => FieldIs(b, 16, 4, i.nlink) && FieldIs(b, 20, 4, i.rdev) && FieldIs(b, 24, 4, i.xattrIndex)
    case 13 | 14 => FieldIs(b, 16, 4, i.nlink) && FieldIs(b, 20, 4, i.xattrIndex)
    case _ => false
  }

  lemma HeaderPlaced(t: Tail)
    requires TakeWords(t, HEADER).r.Ok?
    ensures var h := TakeWords(t, HEADER);
            && FieldIs(t.bytes, 0, 2, h.r.value[0]) && FieldIs(t.bytes, 2, 2, h.r.value[1])
                && FieldIs(t.bytes, 4, 2, h.r.value[2])
            && FieldIs(t.bytes, 6, 2, h.r.value[3]) && FieldIs(t.bytes, 8, 4, h.r.value[4])
                && FieldIs(t.bytes, 12, 4, h.r.value[5])
            && |t.bytes| >= 16 && h.rest.bytes == t.bytes[16..]
  {
    hide TakeWords, FieldIs;
    Offsets(HEADER);
    WordsAtOffsets(t, HEADER, 0);
    WordsAtOffsets(t, HEADER, 1);
    WordsAtOffsets(t, HEADER, 2);
    WordsAtOffsets(t, HEADER, 3);
    WordsAtOffsets(t, HEADER, 4);
    WordsAtOffsets(t, HEADER, 5);
    WordsAtOffsets(t, HEADER, 6);
  }

  lemma FieldPlaced(b: seq<byte>, header: Tail, layout: seq<nat>, k: nat)
    requires |b| >= 16 && header.bytes == b[16..] && TakeWords(header, layout).r.Ok? && k < |layout|
    ensures FieldIs(b, 16 + OffsetOf(layout, k), layout[k], TakeWords(header, layout).r.value[k])
  {
    hide TakeWords, LeValue;
    WordsAtOffsets(header, layout, k);
    Later(b, 16, OffsetOf(layout, k), layout[k]);
  }

  /// The fields behind a header of the given type, each at its offset.
  lemma FieldsPlaced(header: seq<nat>, b: seq<byte>, t: Tail)
    requires |header| == 6 && Layout(header[0]).Some? && |b| >= 16 && t.bytes == b[16..]
    requires TakeWords(t, Layout(header[0]).value).r.Ok?
    ensures header[0] != 10 ==> FieldsAt(b, Assemble(header, TakeWords(t, Layout(header[0]).value).r.value))
    ensures var i := Assemble(header, TakeWords(t, Layout(header[0]).value).r.value);
            header[0] == 10 ==> FieldIs(b, 16, 4, i.nlink) && FieldIs(b, 20, 4, i.fileSize)
  {
    hide TakeWords, FieldIs, OffsetOf;
    var layout := Layout(header[0]).value;
    Offsets(layout);
    forall k | 0 <= k < |layout|
      ensures FieldIs(b, 16 + OffsetOf(layout, k), layout[k], TakeWords(t, layout).r.value[k])
    {
      FieldPlaced(b, t, layout, k);
    }
  }

  /// Where what has a length of its own lies: a file's block sizes, four bytes each, behind
  /// its 32 or 56 bytes of fields, and a symlink's target behind 24, with the attribute
  /// index of the extended form behind that. No other type has any.
  predicate BodyAt(b: seq<byte>, i: Inode) {
    if i.inodeType == 2 || i.inodeType == 9 then
      var at := if i.inodeType == 2 then 32 else 56;
      i.symlinkTarget == [] && forall k :: 0 <= k < |i.blockSizes| ==> FieldIs(b, at + 4 * k, 4, i.blockSizes[k])
    else if i.inodeType == 3 || i.inodeType == 10 then
      && i.blockSizes == [] && i.fileSize <= 65536
      && 24 + i.fileSize <= |b| && i.symlinkTarget == b[24..24 + i.fileSize]
      && (i.inodeType == 10 ==> FieldIs(b, 24 + i.fileSize, 4, i.xattrIndex))
    else 1 <= i.inodeType <= 14 && i.blockSizes == [] && i.symlinkTarget == []
  }

  lemma {:induction false} FoursAt(n: nat, k: nat)
    requires k <= n
    ensures OffsetOf(Fours(n), k) == 4 * k
  {
    if k > 0 {
      FoursAt(n, k - 1);
    }
  }

  /// The rest of the record behind the fields.
  lemma RestPlaced(t: Tail, id: nat)
    requires TakeWords(t, HEADER).r.Ok? && Layout(id).Some?
    requires TakeWords(TakeWords(t, HEADER).rest, Layout(id).value).r.Ok?
    ensures var rest := TakeWords(TakeWords(t, HEADER).rest, Layout(id).value).rest;
            && (id == 2 ==> |t.bytes| >= 32 && rest.bytes == t.bytes[32..])
            && (id == 9 ==> |t.bytes| >= 56 && rest.bytes == t.bytes[56..])
            && (id == 3 || id == 10 ==> |t.bytes| >= 24 && rest.bytes == t.bytes[24..])
  {
    hide TakeWords, FieldIs, OffsetOf;
    var h, layout := TakeWords(t, HEADER), Layout(id).value;
    HeaderPlaced(t);
    WordsAtOffsets(h.rest, layout, |layout|);
    Offsets(layout);
    Later(t.bytes, 16, OffsetOf(layout, |layout|), 0);
  }

  lemma SizesPlaced(b: seq<byte>, at: nat, rest: Tail, n: nat)
    requires at <= |b| && rest.bytes == b[at..] && TakeWords(rest, Fours(n)).r.Ok?
    ensures var sizes := TakeWords(rest, Fours(n)).r.value;
            forall k :: 0 <= k < |sizes| ==> FieldIs(b, at + 4 * k, 4, sizes[k])
  {
    hide TakeWords, LeValue;
    var sizes := TakeWords(rest, Fours(n)).r.value;
    forall k | 0 <= k < |sizes| ensures FieldIs(b, at + 4 * k, 4, sizes[k]) {
      FoursAt(n, k);
      WordsAtOffsets(rest, Fours(n), k);
      Later(b, at, 4 * k, 4);
    }
  }

  lemma TargetPlaced(b: seq<byte>, rest: Tail, n: nat)
    requires |b| >= 24 && rest.bytes == b[24..] && Take(rest, n).r.Ok?
    ensures 24 + n <= |b| && Take(rest, n).r.value == b[24..24 + n]
    ensures var x := TakeWord(Take(rest, n).rest, 4); x.r.Ok? ==> FieldIs(b, 24 + n, 4, x.r.value)
  {
    hide LeValue;
    Later(b, 24, 0, n);
    Later(b, 24, n, 4);
    var after := Take(rest, n).rest;
    assert after.bytes == b[24..][n..] == b[24 + n..];
    Later(b, 24 + n, 0, 4);
  }

  /// The parts of an inode that have a length of their own come from their own places.
  lemma InodeBodyPlaced(t: Tail, blockSize: nat)
    requires blockSize > 0 && TakeInode(t, blockSize).Ok?
    ensures BodyAt(t.bytes, TakeInode(t, blockSize).value)
  {
    hide TakeWords, Take, TakeWord, BlockCount, FieldIs;
    var h := TakeWords(t, HEADER);
    var id := h.r.value[0];
    var f := TakeWords(h.rest, Layout(id).value);
    var i := Assemble(h.r.value, f.r.value);
    RestPlaced(t, id);
    if i.IsRegularFile() {
      var n := BlockCount(i.fileSize, blockSize, i.fragmentIndex).value;
      SizesPlaced(t.bytes, if id == 2 then 32 else 56, f.rest, n);
    } else if TypeOf(id) == Symlink {
      TargetPlaced(t.bytes, f.rest, i.fileSize);
    }
  }

  /// Every field of an inode that reads comes from its own place in the record.
  lemma InodeFieldsPlaced(t: Tail, blockSize: nat)
    requires blockSize > 0 && TakeInode(t, blockSize).Ok?
    ensures var i := TakeInode(t, blockSize).value; HeaderAt(t.bytes, i) && FieldsAt(t.bytes, i)
  {
    hide TakeWords, Take, TakeWord, BlockCount, FieldIs;
    var h := TakeWords(t, HEADER);
    HeaderPlaced(t);
    FieldsPlaced(h.r.value, t.bytes, h.rest);
  }
}
