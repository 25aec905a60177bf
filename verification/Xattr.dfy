/// Extended attributes: src/xattr.rs, and the sizes src/capi.rs reports for them.
module Xattr {
  import opened Bytes
  import opened Image
  import opened Metadata
  import opened Cursor
  import opened Superblock
  import Table
  import Modular

  const MAX_NAME_LEN := 255
  const MAX_VALUE_LEN := 65536
  const MAX_XATTRS := 16384

  datatype XattrEntry = XattrEntry(name: seq<byte>, value: seq<byte>)

  /// Where a set of pairs lies, how many it has and what they add up to.
  datatype XattrId = XattrId(ref: nat, count: nat, size: nat)

  datatype XattrTable = XattrTable(tableStart: u64, ids: seq<XattrId>)

  /// "user.", "trusted." and "security.".
  function Prefix(k: nat): (p: Option<seq<byte>>)
    ensures p.Some? <==> k < 3
  {
    match k
    case 0 => Some([0x75, 0x73, 0x65, 0x72, 0x2E])
    case 1 => Some([0x74, 0x72, 0x75, 0x73, 0x74, 0x65, 0x64, 0x2E])
    case 2 => Some([0x73, 0x65, 0x63, 0x75, 0x72, 0x69, 0x74, 0x79, 0x2E])
    case _ => None
  }

  /// The bit of a pair's type that says its value is a reference.
  predicate IsOutOfLine(kind: nat) { kind / 0x100 % 2 == 1 }

  // ----- pairs on a stream -----

  datatype PairRead = PairRead(entry: XattrEntry, rest: Tail)

  function Start(table: XattrTable, packed: nat): u64 { FromPacked(packed).StartAbs(table.tableStart) }

  /// A length word and so many bytes.
  function TakeValue(t: Tail): (k: Taken<seq<byte>>) {
    var size := TakeWord(t, 4);
    match size.r
    case Err(e) => Taken(Err(e), size.rest)
    case Ok(n) => if n > MAX_VALUE_LEN then Taken(Err(BadMetadata(XattrValueTooLong)), size.rest) else Take(size.rest,
        n)
  }

  /// `read_ool_value`, without any cache.
  function OutOfLine(img: Image, table: XattrTable, packed: nat): (r: Result<seq<byte>, Error>) {
    match StreamAt(img, None, Start(table, packed), FromPacked(packed).inBlock)
    case Err(e) => Err(e)
    case Ok(t) => TakeValue(t).r
  }

  function TakeReference(img: Image, table: XattrTable, t: Tail): (k: Taken<seq<byte>>) {
    var size := TakeWord(t, 4);
    match size.r
    case Err(e) => Taken(Err(e), size.rest)
    case Ok(n) =>
      if n != 8 then Taken(Err(BadMetadata(XattrReference)), size.rest)
      else
        var target := TakeWord(size.rest, 8);
        match target.r
        case Err(e) => Taken(Err(e), target.rest)
        case Ok(packed) => Taken(OutOfLine(img, table, packed), target.rest)
  }

  /// A pair's type and its whole name.
  datatype Named = Named(kind: nat, name: seq<byte>)

  function TakeName(t: Tail): (k: Taken<Named>)
    ensures k.r.Ok? ==> k.r.value.kind < 0x1_0000
  {
    Pow256Values();
    var kind := TakeWord(t, 2);
    match kind.r
    case Err(e) => Taken(Err(e), kind.rest)
    case Ok(raw) =>
      var size := TakeWord(kind.rest, 2);
      match size.r
      case Err(e) => Taken(Err(e), size.rest)
      case Ok(n) =>
        if n > MAX_NAME_LEN then Taken(Err(BadMetadata(XattrNameTooLong)), size.rest)
        else
          var suffix := Take(size.rest, n);
          match suffix.r
          case Err(e) => Taken(Err(e), suffix.rest)
          case Ok(bytes) =>
            match Prefix(raw % 0x100)
            case None => Taken(Err(BadMetadata(XattrNamespace)), suffix.rest)
            case Some(p) =>
              if |p| + |bytes| > MAX_NAME_LEN then Taken(Err(BadMetadata(XattrNameTooLong)), suffix.rest)
              else Taken(Ok(Named(raw, p + bytes)), suffix.rest)
  }

  function TakePair(img: Image, table: XattrTable, t: Tail): (k: Taken<XattrEntry>) {
    var named := TakeName(t);
    match named.r
    case Err(e) => Taken(Err(e), named.rest)
    case Ok(head) =>
      var value := if IsOutOfLine(head.kind) then TakeReference(img, table, named.rest) else TakeValue(named.rest);
      Taken(match value.r case Err(e) => Err(e) case Ok(v) => Ok(XattrEntry(head.name, v)), value.rest)
  }

  /// What a pair adds to its set's size.
  function Weight(e: XattrEntry): nat { |e.name| + 1 + |e.value| }

  function TotalWeight(es: seq<XattrEntry>): nat { if es == [] then 0 else Weight(es[0]) + TotalWeight(es[1..]) }

  /// `count` pairs that add up to exactly what is left of the declared size.
  function TakePairs(img: Image, table: XattrTable, t: Tail, count: nat, left: nat): (r: Result<seq<XattrEntry>, Error>)
    decreases count
  {
    if count == 0 then if left != 0 then Err(BadMetadata(XattrTooShort)) else Ok([])
    else
      var k := TakePair(img, table, t);
      match k.r
      case Err(e) => Err(e)
      case Ok(e) =>
        if Weight(e) > left then Err(BadMetadata(XattrTooLong))
        else
          match TakePairs(img, table, k.rest, count - 1, left - Weight(e))
          case Err(err) => Err(err)
          case Ok(es) => Ok([e] + es)
  }

  /// What `read_set` gives for a set's index, without any cache.
  function SetAt(img: Image, table: XattrTable, index: nat): (r: Result<seq<XattrEntry>, Error>) {
    if index >= |table.ids| then Err(BadMetadata(XattrIndex))
    else
      var id := table.ids[index];
      if id.count > MAX_XATTRS then Err(BadMetadata(XattrCount))
      else
        match StreamAt(img, None, Start(table, id.ref), FromPacked(id.ref).inBlock)
        case Err(e) => Err(e)
        case Ok(t) => TakePairs(img, table, t, id.count, id.size)
  }

  // ----- what an accepted set satisfies -----

  predicate LegalEntry(e: XattrEntry) {
    && |e.name| <= 255 && |e.value| <= 65536
    && exists k :: 0 <= k < 3 && Prefix(k).value <= e.name
  }

  lemma PairLegal(img: Image, table: XattrTable, t: Tail)
    requires TakePair(img, table, t).r.Ok?
    ensures LegalEntry(TakePair(img, table, t).r.value)
  {
    hide StreamAt, TakeWord;
    var head := TakeName(t).r.value;
    assert Prefix(head.kind % 0x100).value <= head.name;
  }

  lemma {:induction false} PairsAddUp(img: Image, table: XattrTable, t: Tail, count: nat, left: nat)
    requires TakePairs(img, table, t, count, left).Ok?
    ensures var es := TakePairs(img, table, t, count, left).value;
            |es| == count && TotalWeight(es) == left && forall i :: 0 <= i < |es| ==> LegalEntry(es[i])
    decreases count
  {
    hide TakePair, LegalEntry;
    if count > 0 {
      var k := TakePair(img, table, t);
      PairLegal(img, table, t);
      PairsAddUp(img, table, k.rest, count - 1, left - Weight(k.r.value));
      var rest := TakePairs(img, table, k.rest, count - 1, left - Weight(k.r.value)).value;
      assert ([k.r.value] + rest)[1..] == rest;
    }
  }

  /// An accepted set has the number of pairs it declares, every name in one of the three
  /// namespaces, and names and values that add up to the declared size.
  lemma SetsAddUp(img: Image, table: XattrTable, index: nat)
    requires SetAt(img, table, index).Ok?
    ensures var es, id := SetAt(img, table, index).value, table.ids[index];
            && |es| == id.count <= 16384 && TotalWeight(es) == id.size
            && forall i :: 0 <= i < |es| ==> LegalEntry(es[i])
  {
    hide StreamAt, LegalEntry, TakePairs;
    var id := table.ids[index];
    var t := StreamAt(img, None, Start(table, id.ref), FromPacked(id.ref).inBlock).value;
    PairsAddUp(img, table, t, id.count, id.size);
  }

  // ----- the printer -----

  /// A value as a pair stores it: itself, or a reference to it.
  datatype Stored = Inline(bytes: seq<byte>) | Reference(packed: nat)

  datatype RawPair = RawPair(kind: nat, suffix: seq<byte>, stored: Stored)

  predicate LegalPair(p: RawPair) {
    && p.kind < 0x1_0000 && Prefix(p.kind % 0x100).Some? && |Prefix(p.kind % 0x100).value| + |p.suffix| <= 255
    && match p.stored
       case Inline(bytes) => !IsOutOfLine(p.kind) && |bytes| <= 65536
       case Reference(packed) => IsOutOfLine(p.kind) && packed <= U64_MAX
  }

  function PrintStored(v: Stored): seq<byte> {
    match v
    case Inline(bytes) => LeBytes(|bytes|, 4) + bytes
    case Reference(packed) => LeBytes(8, 4) + LeBytes(packed, 8)
  }

  function PrintPair(p: RawPair): seq<byte> {
    LeBytes(p.kind, 2) + (LeBytes(|p.suffix|, 2) + (p.suffix + PrintStored(p.stored)))
  }

  function PrintPairs(ps: seq<RawPair>): seq<byte> { if ps == [] then [] else PrintPair(ps[0]) + PrintPairs(ps[1..]) }

  /// What a stored pair stands for.
  function Meaning(img: Image, table: XattrTable, p: RawPair): (r: Result<XattrEntry, Error>)
    requires LegalPair(p)
  {
    var name := Prefix(p.kind % 0x100).value + p.suffix;
    match p.stored
    case Inline(bytes) => Ok(XattrEntry(name, bytes))
    case Reference(packed) =>
      match OutOfLine(img, table, packed)
      case Err(e) => Err(e)
      case Ok(value) => Ok(XattrEntry(name, value))
  }

  /// The pairs, one by one, mean the entries.
  ghost predicate Mean(img: Image, table: XattrTable, ps: seq<RawPair>, es: seq<XattrEntry>) {
    && |ps| == |es|
    && forall i :: 0 <= i < |ps| ==> LegalPair(ps[i]) && Meaning(img, table, ps[i]) == Ok(es[i])
  }

  // ----- reading undoes printing -----

  /// A printed value is read back, in line or behind a reference.
  lemma ValueFront(bytes: seq<byte>, t: Tail)
    requires |bytes| <= MAX_VALUE_LEN
    ensures TakeValue(Prepend(PrintStored(Inline(bytes)), t)) == Taken(Ok(bytes), t)
  {
    hide Take, TakeWord;
    Pow256Values();
    PrependAssociates(LeBytes(|bytes|, 4), bytes, t);
    WordFront(|bytes|, 4, Prepend(bytes, t));
    TakeFront(bytes, t);
  }

  lemma ReferenceFront(img: Image, table: XattrTable, packed: nat, t: Tail)
    requires packed <= U64_MAX
    ensures TakeReference(img, table, Prepend(PrintStored(Reference(packed)), t))
            == Taken(OutOfLine(img, table, packed), t)
  {
    hide Take, TakeWord, OutOfLine;
    Pow256Values();
    PrependAssociates(LeBytes(8, 4), LeBytes(packed, 8), t);
    WordFront(8, 4, Prepend(LeBytes(packed, 8), t));
    WordFront(packed, 8, t);
  }

  lemma NameFront(kind: nat, suffix: seq<byte>, t: Tail)
    requires kind < 0x1_0000 && Prefix(kind % 0x100).Some? && |Prefix(kind % 0x100).value| + |suffix| <= MAX_NAME_LEN
    ensures TakeName(Prepend(LeBytes(kind, 2) + (LeBytes(|suffix|, 2) + suffix), t))
            == Taken(Ok(Named(kind, Prefix(kind % 0x100).value + suffix)), t)
  {
    hide Take, TakeWord, Prefix;
    Pow256Values();
    PrependAssociates(LeBytes(kind, 2), LeBytes(|suffix|, 2) + suffix, t);
    PrependAssociates(LeBytes(|suffix|, 2), suffix, t);
    WordFront(kind, 2, Prepend(LeBytes(|suffix|, 2), Prepend(suffix, t)));
    WordFront(|suffix|, 2, Prepend(suffix, t));
    TakeFront(suffix, t);
  }

  lemma PairFront(img: Image, table: XattrTable, p: RawPair, t: Tail)
    requires LegalPair(p)
    ensures Meaning(img, table, p).Ok? ==>
              TakePair(img, table, Prepend(PrintPair(p), t)) == Taken(Meaning(img, table, p), t)
  {
    hide TakeName, TakeValue, TakeReference, OutOfLine, Prefix, IsOutOfLine;
    var v := PrintStored(p.stored);
    var head := LeBytes(p.kind, 2) + (LeBytes(|p.suffix|, 2) + p.suffix);
    assert PrintPair(p) == head + v;
    PrependAssociates(head, v, t);
    NameFront(p.kind, p.suffix, Prepend(v, t));
    match p.stored
    case Inline(bytes) => ValueFront(bytes, t);
    case Reference(packed) => ReferenceFront(img, table, packed, t);
  }

  /// Printed pairs are read back as what they mean, whatever follows them, when the size
  /// they are declared with is the size they have.
  lemma {:induction false} PairsRoundTrip(img: Image, table: XattrTable, ps: seq<RawPair>, es: seq<XattrEntry>, t: Tail)
    requires Mean(img, table, ps, es)
    ensures TakePairs(img, table, Prepend(PrintPairs(ps), t), |ps|, TotalWeight(es)) == Ok(es)
    decreases |ps|
  {
    hide TakePair, Meaning, LegalPair, PrintPair;
    if ps != [] {
      PrependAssociates(PrintPair(ps[0]), PrintPairs(ps[1..]), t);
      PairFront(img, table, ps[0], Prepend(PrintPairs(ps[1..]), t));
      PairsRoundTrip(img, table, ps[1..], es[1..], t);
      assert es == [es[0]] + es[1..];
    }
  }

  // ----- the stored pair, spelled out -----

  function Ascii(text: string): (s: seq<byte>)
    requires forall i :: 0 <= i < |text| ==> text[i] < 128 as char
    ensures |s| == |text| && forall i :: 0 <= i < |text| ==> s[i] == text[i] as int
  {
    seq(|text|, i requires 0 <= i < |text| => text[i] as int)
  }

  /// The namespaces, by the number their pairs carry.
  function Namespace(k: nat): (s: seq<byte>)
    requires k < 3
    ensures |s| < 10
  {
    match k
    case 0 => Ascii("user.")
    case 1 => Ascii("trusted.")
    case 2 => Ascii("security.")
  }

  lemma PrefixSpelled(k: nat)
    requires k < 3
    ensures Prefix(k) == Some(Namespace(k))
  {
    match k
    case 0 => assert Prefix(0).value == Namespace(0);
    case 1 => assert Prefix(1).value == Namespace(1);
    case 2 => assert Prefix(2).value == Namespace(2);
  }

  /// The low byte of a type word is the namespace; the bit above it sets references apart
  /// from values, and the bits above that mean nothing.
  lemma TypeWord(k: nat, reference: bool, unused: nat)
    requires k < 3
    ensures var kind := k + (if reference then 0x100 else 0) + 0x200 * unused;
            kind % 0x100 == k && (IsOutOfLine(kind) <==> reference)
  {
    var flag := if reference then 1 else 0;
    Modular.DivUnique(k + 0x100 * flag + 0x200 * unused, 0x100, flag + 2 * unused, k);
    Modular.DivUnique(flag + 2 * unused, 2, unused, flag);
  }

  /// A pair of each namespace is stored with the namespace's number as its type and its
  /// value in line, or with 256 more and a reference to its value.
  lemma PairsSpelled(img: Image, table: XattrTable, k: nat, unused: nat, suffix: seq<byte>, value: seq<byte>,
      packed: u64, t: Tail)
    requires k < 3 && unused < 0x80 && |Namespace(k)| + |suffix| <= 255 && |value| <= 65536
    ensures var stored := LeBytes(k + 0x200 * unused, 2)
                          + (LeBytes(|suffix|, 2) + (suffix + (LeBytes(|value|, 4) + value)));
            TakePair(img, table, Prepend(stored, t)) == Taken(Ok(XattrEntry(Namespace(k) + suffix, value)), t)
    ensures var stored := LeBytes(k + 0x100 + 0x200 * unused, 2)
                          + (LeBytes(|suffix|, 2) + (suffix + (LeBytes(8, 4) + LeBytes(packed, 8))));
            OutOfLine(img, table, packed) == Ok(value) ==>
              TakePair(img, table, Prepend(stored, t)) == Taken(Ok(XattrEntry(Namespace(k) + suffix, value)), t)
  {
    hide TakePair, OutOfLine, Prefix, Namespace, IsOutOfLine;
    PrefixSpelled(k);
    TypeWord(k, false, unused);
    TypeWord(k, true, unused);
    PairFront(img, table, RawPair(k + 0x200 * unused, suffix, Inline(value)), t);
    PairFront(img, table, RawPair(k + 0x100 + 0x200 * unused, suffix, Reference(packed)), t);
  }

  // ----- and accepts nothing else -----

  lemma NameWasFront(t: Tail) returns (suffix: seq<byte>)
    requires TakeName(t).r.Ok?
    ensures var k := TakeName(t);
            && t == Prepend(LeBytes(k.r.value.kind, 2) + (LeBytes(|suffix|, 2) + suffix), k.rest)
            && Prefix(k.r.value.kind % 0x100).Some? && k.r.value.name == Prefix(k.r.value.kind % 0x100).value + suffix
            && |k.r.value.name| <= MAX_NAME_LEN
  {
    hide TakeWord, Prefix;
    var kind := TakeWord(t, 2);
    var size := TakeWord(kind.rest, 2);
    var k := Take(size.rest, size.r.value);
    suffix := k.r.value;
    TakenWasFront(t, 2);
    TakenWasFront(kind.rest, 2);
    PrependAssociates(LeBytes(|suffix|, 2), suffix, k.rest);
    PrependAssociates(LeBytes(kind.r.value, 2), LeBytes(|suffix|, 2) + suffix, k.rest);
  }

  lemma ValueWasFront(t: Tail)
    requires TakeValue(t).r.Ok?
    ensures t == Prepend(PrintStored(Inline(TakeValue(t).r.value)), TakeValue(t).rest)
        && |TakeValue(t).r.value| <= MAX_VALUE_LEN
  {
    hide TakeWord;
    var size := TakeWord(t, 4);
    TakenWasFront(t, 4);
    var k := Take(size.rest, size.r.value);
    PrependAssociates(LeBytes(size.r.value, 4), k.r.value, k.rest);
  }

  lemma ReferenceWasFront(img: Image, table: XattrTable, t: Tail) returns (packed: nat)
    requires TakeReference(img, table, t).r.Ok?
    ensures var k := TakeReference(img, table, t);
            t == Prepend(PrintStored(Reference(packed)), k.rest) && packed <= U64_MAX
                && k.r == OutOfLine(img, table, packed)
  {
    hide TakeWord, OutOfLine;
    Pow256Values();
    var size := TakeWord(t, 4);
    TakenWasFront(t, 4);
    var target := TakeWord(size.rest, 8);
    packed := target.r.value;
    TakenWasFront(size.rest, 8);
    PrependAssociates(LeBytes(8, 4), LeBytes(packed, 8), target.rest);
  }

  lemma PairWasFront(img: Image, table: XattrTable, t: Tail) returns (p: RawPair)
    requires TakePair(img, table, t).r.Ok?
    ensures var k := TakePair(img, table, t);
            LegalPair(p) && Meaning(img, table, p) == k.r && t == Prepend(PrintPair(p), k.rest)
  {
    hide TakeName, TakeValue, TakeReference, OutOfLine, Prefix, IsOutOfLine;
    var named := TakeName(t);
    var head := named.r.value;
    var suffix := NameWasFront(t);
    var stored: Stored;
    if IsOutOfLine(head.kind) {
      var packed := ReferenceWasFront(img, table, named.rest);
      stored := Reference(packed);
    } else {
      ValueWasFront(named.rest);
      stored := Inline(TakeValue(named.rest).r.value);
    }
    p := RawPair(head.kind, suffix, stored);
    var front := LeBytes(head.kind, 2) + (LeBytes(|suffix|, 2) + suffix);
    assert PrintPair(p) == front + PrintStored(stored);
    PrependAssociates(front, PrintStored(stored), TakePair(img, table, t).rest);
  }

  /// Every accepted run of pairs is the print of legal pairs that mean what was read.
  lemma {:induction false} PairsSound(img: Image, table: XattrTable, t: Tail, count: nat, left: nat)
      returns (ps: seq<RawPair>, rest: Tail)
    requires TakePairs(img, table, t, count, left).Ok?
    ensures Mean(img, table, ps, TakePairs(img, table, t, count, left).value) && t == Prepend(PrintPairs(ps), rest)
    decreases count
  {
    hide TakePair, Meaning, LegalPair, PrintPair;
    if count == 0 {
      ps, rest := [], t;
      assert [] + t.bytes == t.bytes;
    } else {
      var k := TakePair(img, table, t);
      var p := PairWasFront(img, table, t);
      var more;
      more, rest := PairsSound(img, table, k.rest, count - 1, left - Weight(k.r.value));
      ps := [p] + more;
      assert ps[1..] == more;
      PrependAssociates(PrintPair(p), PrintPairs(more), rest);
    }
  }

  // ----- the loops as the source runs them -----

  /// A length word and so many bytes off a cursor.
  method ReadValue(cursor: MetaCursor) returns (r: Result<seq<byte>, Error>)
    requires cursor.Valid()
    modifies cursor, cursor.cache
    ensures cursor.Valid()
    ensures Taken(r, cursor.Contents()) == TakeValue(old(cursor.Contents()))
  {
    hide Take, TakeWord;
    var size := cursor.ReadWord(4);
    if size.Err? {
      return Err(size.error);
    }
    if size.value > MAX_VALUE_LEN {
      return Err(BadMetadata(XattrValueTooLong));
    }
    r := cursor.ReadExact(size.value);
  }

  /// `read_ool_value`: a second cursor, at the reference.
  method ReadOutOfLine(img: Image, table: XattrTable, packed: nat, cache: MetaCache?)
      returns (r: Result<seq<byte>, Error>)
    requires CacheValid(img, cache) && SoundCodec(img)
    modifies cache
    ensures CacheValid(img, cache)
    ensures r == OutOfLine(img, table, packed)
  {
    hide StreamAt, TakeValue;
    var start := Open(img, Start(table, packed), FromPacked(packed).inBlock, cache);
    if start.Err? {
      return Err(start.error);
    }
    r := ReadValue(start.value);
  }

  method ReadReference(img: Image, table: XattrTable, cursor: MetaCursor) returns (r: Result<seq<byte>, Error>)
    requires cursor.Valid() && cursor.img == img
    modifies cursor, cursor.cache
    ensures cursor.Valid()
    ensures Taken(r, cursor.Contents()) == TakeReference(img, table, old(cursor.Contents()))
  {
    hide TakeWord, OutOfLine, SoundCodec;
    var size := cursor.ReadWord(4);
    if size.Err? {
      return Err(size.error);
    }
    if size.value != 8 {
      return Err(BadMetadata(XattrReference));
    }
    var target := cursor.ReadWord(8);
    if target.Err? {
      return Err(target.error);
    }
    r := ReadOutOfLine(img, table, target.value, cursor.cache);
  }

  method ReadName(cursor: MetaCursor) returns (r: Result<Named, Error>)
    requires cursor.Valid()
    modifies cursor, cursor.cache
    ensures cursor.Valid()
    ensures Taken(r, cursor.Contents()) == TakeName(old(cursor.Contents()))
  {
    hide Take, TakeWord, Prefix;
    var kind := cursor.ReadWord(2);
    if kind.Err? {
      return Err(kind.error);
    }
    var size := cursor.ReadWord(2);
    if size.Err? {
      return Err(size.error);
    }
    if size.value > MAX_NAME_LEN {
      return Err(BadMetadata(XattrNameTooLong));
    }
    var suffix := cursor.ReadExact(size.value);
    if suffix.Err? {
      return Err(suffix.error);
    }
    var prefix := Prefix(kind.value % 0x100);
    if prefix.None? {
      return Err(BadMetadata(XattrNamespace));
    }
    var name := prefix.value + suffix.value;
    return if |name| > MAX_NAME_LEN then Err(BadMetadata(XattrNameTooLong)) else Ok(Named(kind.value, name));
  }

  method ReadPair(img: Image, table: XattrTable, cursor: MetaCursor) returns (r: Result<XattrEntry, Error>)
    requires cursor.Valid() && cursor.img == img
    modifies cursor, cursor.cache
    ensures cursor.Valid()
    ensures Taken(r, cursor.Contents()) == TakePair(img, table, old(cursor.Contents()))
  {
    hide TakeName, TakeValue, TakeReference;
    var head := ReadName(cursor);
    if head.Err? {
      return Err(head.error);
    }
    var value;
    if IsOutOfLine(head.value.kind) {
      value := ReadReference(img, table, cursor);
    } else {
      value := ReadValue(cursor);
    }
    return match value case Err(e) => Err(e) case Ok(v) => Ok(XattrEntry(head.value.name, v));
  }

  ghost function AfterPairs(done: seq<XattrEntry>, r: Result<seq<XattrEntry>, Error>): Result<seq<XattrEntry>, Error> {
    match r case Err(e) => Err(e) case Ok(es) => Ok(done + es)
  }

  lemma PairsBegin(img: Image, table: XattrTable, t: Tail, count: nat, left: nat)
    ensures AfterPairs([], TakePairs(img, table, t, count, left)) == TakePairs(img, table, t, count, left)
  {
    hide TakePairs;
    var r := TakePairs(img, table, t, count, left);
    assert r.Ok? ==> [] + r.value == r.value;
  }

  lemma PairsEnd(img: Image, table: XattrTable, t: Tail, left: nat, done: seq<XattrEntry>)
    ensures AfterPairs(done, TakePairs(img, table, t, 0, left))
            == if left != 0 then Err(BadMetadata(XattrTooShort)) else Ok(done)
  {
    assert done + [] == done;
  }

  lemma PairsStep(img: Image, table: XattrTable, t: Tail, count: nat, left: nat, done: seq<XattrEntry>)
    requires count > 0
    ensures var k := TakePair(img, table, t);
            AfterPairs(done, TakePairs(img, table, t, count, left))
            == match k.r
               case Err(e) => Err(e)
               case Ok(e) =>
                 if Weight(e) > left then Err(BadMetadata(XattrTooLong))
                 else AfterPairs(done + [e], TakePairs(img, table, k.rest, count - 1, left - Weight(e)))
  {
    hide TakePair;
    var k := TakePair(img, table, t);
    if k.r.Ok? && Weight(k.r.value) <= left {
      var more := TakePairs(img, table, k.rest, count - 1, left - Weight(k.r.value));
      assert more.Ok? ==> done + ([k.r.value] + more.value) == (done + [k.r.value]) + more.value;
    }
  }

  /// Pair after pair, the running total held to the declared size.
  method ReadPairs(img: Image, table: XattrTable, cursor: MetaCursor, count: nat, size: nat)
      returns (r: Result<seq<XattrEntry>, Error>)
    requires cursor.Valid() && cursor.img == img
    modifies cursor, cursor.cache
    ensures cursor.Valid()
    ensures r == TakePairs(img, table, old(cursor.Contents()), count, size)
  {
    hide TakePair, TakePairs;
    ghost var t := cursor.Contents();
    PairsBegin(img, table, t, count, size);
    var out: seq<XattrEntry> := [];
    var total := 0;
    for k := 0 to count
      invariant cursor.Valid() && total <= size
      invariant TakePairs(img, table, t, count, size)
                == AfterPairs(out, TakePairs(img, table, cursor.Contents(), count - k, size - total))
    {
      PairsStep(img, table, cursor.Contents(), count - k, size - total, out);
      var pair := ReadPair(img, table, cursor);
      if pair.Err? {
        return Err(pair.error);
      }
      total := total + (|pair.value.name| + 1 + |pair.value.value|);
      if total > size {
        return Err(BadMetadata(XattrTooLong));
      }
      out := out + [pair.value];
    }
    PairsEnd(img, table, cursor.Contents(), size - total, out);
    if total != size {
      return Err(BadMetadata(XattrTooShort));
    }
    return Ok(out);
  }

  /// `read_set`.
  method ReadSet(img: Image, table: XattrTable, index: nat, cache: MetaCache?)
      returns (r: Result<seq<XattrEntry>, Error>)
    requires CacheValid(img, cache) && SoundCodec(img)
    modifies cache
    ensures CacheValid(img, cache)
    ensures r == SetAt(img, table, index)
  {
    hide StreamAt, TakePair, TakePairs, SoundCodec;
    if index >= |table.ids| {
      return Err(BadMetadata(XattrIndex));
    }
    var id := table.ids[index];
    if id.count > MAX_XATTRS {
      return Err(BadMetadata(XattrCount));
    }
    var start := Open(img, Start(table, id.ref), FromPacked(id.ref).inBlock, cache);
    if start.Err? {
      return Err(start.error);
    }
    r := ReadPairs(img, table, start.value, id.count, id.size);
  }

  // ----- the id table -----

  const ID_SIZE := 16

  function IdOf(rec: seq<byte>): XattrId
    requires |rec| == ID_SIZE
  {
    XattrId(LeValue(rec[0..8]), LeValue(rec[8..12]), LeValue(rec[12..16]))
  }

  /// An id is stored as its reference, its count and its size, in that order.
  lemma IdRoundTrip(ref: u64, count: u32, size: u32)
    ensures IdOf(LeBytes(ref, 8) + LeBytes(count, 4) + LeBytes(size, 4)) == XattrId(ref, count, size)
  {
    hide LeValue, LeBytes;
    Pow256Values();
    var rec := LeBytes(ref, 8) + LeBytes(count, 4) + LeBytes(size, 4);
    assert rec[0..8] == LeBytes(ref, 8) && rec[8..12] == LeBytes(count, 4) && rec[12..16] == LeBytes(size, 4);
    LeValueOfBytes(ref, 8);
    LeValueOfBytes(count, 4);
    LeValueOfBytes(size, 4);
  }

  /// `read_id_table`: a header that names the pair table and the count, then the ids.
  method ReadIdTable(img: Image, sb: Superblock) returns (r: Result<Option<XattrTable>, Error>)
    ensures r == Ok(None) <==> sb.xattrIdTable == NO_TABLE
    ensures sb.xattrIdTable != NO_TABLE ==>
              match ReadAt(img.dev, sb.xattrIdTable, 16)
              case Err(e) => r == Err(e)
              case Ok(header) =>
                var start, n := LeValue(header[0..8]), LeValue(header[8..12]);
                if n == 0 then start <= U64_MAX && r == Ok(Some(XattrTable(start, [])))
                else if start >= sb.xattrIdTable then r == Err(BadMetadata(XattrTableOrder))
                else
                  match Table.IndirectTable(img, sb, sb.xattrIdTable + 16, n * 16)
                  case Err(e) => r == Err(e)
                  case Ok(bytes) =>
                    && r.Ok? && r.value.Some? && r.value.value.tableStart == start && |r.value.value.ids| == n
                    && forall i :: 0 <= i < n ==> r.value.value.ids[i] == IdOf(Table.Record(bytes, i, 16))
  {
    hide LeValue, Table.IndirectTable;
    if sb.xattrIdTable == NO_TABLE {
      return Ok(None);
    }
    var header := ReadAt(img.dev, sb.xattrIdTable, ID_SIZE);
    if header.Err? {
      return Err(header.error);
    }
    Pow256Values();
    var start, n := LeValue(header.value[0..8]), LeValue(header.value[8..12]);
    if n == 0 {
      return Ok(Some(XattrTable(start, [])));
    }
    if start >= sb.xattrIdTable {
      return Err(BadMetadata(XattrTableOrder));
    }
    var bytes := Table.ReadIndirectTable(img, sb, sb.xattrIdTable + ID_SIZE, n * ID_SIZE);
    if bytes.Err? {
      return Err(bytes.error);
    }
    var ids: seq<XattrId> := [];
    for i := 0 to n
      invariant |ids| == i && forall k :: 0 <= k < i ==> ids[k] == IdOf(Table.Record(bytes.value, k, ID_SIZE))
    {
      ids := ids + [IdOf(bytes.value[i * ID_SIZE..(i + 1) * ID_SIZE])];
    }
    return Ok(Some(XattrTable(start, ids)));
  }

  // ----- the sizes the C interface reports -----

  /// The buffer `fs_squashfs_listxattr` asks for: every name and its terminator.
  function NamesSize(es: seq<XattrEntry>): nat { if es == [] then 0 else |es[0].name| + 1 + NamesSize(es[1..]) }

  function ValuesSize(es: seq<XattrEntry>): nat { if es == [] then 0 else |es[0].value| + ValuesSize(es[1..]) }

  /// The names, each with its terminator.
  function NamesBytes(es: seq<XattrEntry>): (s: seq<byte>)
    ensures |s| == NamesSize(es)
  {
    if es == [] then [] else es[0].name + [0] + NamesBytes(es[1..])
  }

  lemma {:induction false} NamesBytesJoined(a: seq<XattrEntry>, b: seq<XattrEntry>)
    ensures NamesBytes(a + b) == NamesBytes(a) + NamesBytes(b)
  {
    if a == [] {
      assert a + b == b;
    } else {
      assert (a + b)[1..] == a[1..] + b;
      NamesBytesJoined(a[1..], b);
      JoinAssociates(a[0].name + [0], NamesBytes(a[1..]), NamesBytes(b));
    }
  }

  lemma JoinAssociates(a: seq<byte>, b: seq<byte>, c: seq<byte>)
    ensures a + (b + c) == (a + b) + c
  {
  }

  /// Each name lies right behind the ones before it and ends with a zero byte.
  lemma NamePlaced(es: seq<XattrEntry>, k: nat)
    requires k < |es|
    ensures var at, n := NamesSize(es[..k]), |es[k].name|;
            at + n < |NamesBytes(es)| && NamesBytes(es)[at..at + n] == es[k].name && NamesBytes(es)[at + n] == 0
  {
    hide NamesSize;
    assert es == es[..k] + es[k..];
    NamesBytesJoined(es[..k], es[k..]);
    NameBetween(NamesBytes(es[..k]), es[k].name, NamesBytes(es[k..][1..]));
  }

  lemma NameBetween(front: seq<byte>, name: seq<byte>, rest: seq<byte>)
    ensures var s, at := front + (name + [0] + rest), |front|;
            at + |name| < |s| && s[at..at + |name|] == name && s[at + |name|] == 0
  {
  }

  lemma {:induction false} WeightSplits(es: seq<XattrEntry>)
    ensures NamesSize(es) + ValuesSize(es) == TotalWeight(es)
  {
    if es != [] {
      WeightSplits(es[1..]);
    }
  }

  /// The size reported for a set's names is the declared size less the values.
  lemma ListedSize(img: Image, table: XattrTable, index: nat)
    requires SetAt(img, table, index).Ok?
    ensures var es := SetAt(img, table, index).value; NamesSize(es) == table.ids[index].size - ValuesSize(es)
  {
    hide SetAt;
    SetsAddUp(img, table, index);
    WeightSplits(SetAt(img, table, index).value);
  }

  /// How many leading names fit a buffer whole.
  predicate Fits(es: seq<XattrEntry>, n: nat, room: nat) {
    n <= |es| && NamesSize(es[..n]) <= room && (n < |es| ==> NamesSize(es[..n]) + |es[n].name| + 1 > room)
  }

  /// The first n names, all that fit, are at the front of a buffer and nothing behind them
  /// has changed.
  predicate NamesCopied(es: seq<XattrEntry>, n: nat, before: seq<byte>, after: seq<byte>) {
    && |before| == |after| && Fits(es, n, |after|)
    && var k := NamesSize(es[..n]); after[..k] == NamesBytes(es[..n]) && after[k..] == before[k..]
  }

  lemma {:induction false} NamesAppend(es: seq<XattrEntry>, e: XattrEntry)
    ensures NamesBytes(es + [e]) == NamesBytes(es) + (e.name + [0])
        && NamesSize(es + [e]) == NamesSize(es) + |e.name| + 1
  {
    if es == [] {
      assert es + [e] == [e] && NamesBytes([e][1..]) == [] && e.name + [0] + [] == e.name + [0];
    } else {
      NamesAppend(es[1..], e);
      assert (es + [e])[1..] == es[1..] + [e];
      assert es[0].name + [0] + (NamesBytes(es[1..]) + (e.name + [0])) == NamesBytes(es) + (e.name + [0]);
    }
  }

  /// The copy of `fs_squashfs_listxattr`: as many whole names as fit, and the size they all
  /// need.
  method CopyNames(es: seq<XattrEntry>, buf: array<byte>) returns (required: nat, ghost n: nat)
    modifies buf
    ensures required == NamesSize(es) && NamesCopied(es, n, old(buf[..]), buf[..])
  {
    required := NamesSize(es);
    var pos := 0;
    n := 0;
    var i := 0;
    while i < |es|
      invariant i <= |es| && n == i && pos == NamesSize(es[..i]) <= buf.Length
      invariant buf[..pos] == NamesBytes(es[..i]) && buf[pos..] == old(buf[pos..])
    {
      var needed := |es[i].name| + 1;
      if pos + needed > buf.Length {
        break;
      }
      assert es[..i] + [es[i]] == es[..i + 1];
      NamesAppend(es[..i], es[i]);
      CopyName(buf, pos, es[i].name);
      pos := pos + needed;
      i := i + 1;
      n := i;
    }
    assert es[..|es|] == es;
    assert buf[..][..pos] == buf[..pos] && buf[..][pos..] == buf[pos..] == old(buf[..])[pos..];
  }

  method CopyName(buf: array<byte>, pos: nat, name: seq<byte>)
    requires pos + |name| + 1 <= buf.Length
    modifies buf
    ensures buf[..pos + |name| + 1] == old(buf[..pos]) + (name + [0])
    ensures buf[pos + |name| + 1..] == old(buf[pos + |name| + 1..])
  {
    forall k | 0 <= k < |name| {
      buf[pos + k] := name[k];
    }
    buf[pos + |name|] := 0;
  }
}
