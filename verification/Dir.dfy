/// Directory listings: src/dir.rs.
module Dir {
  import opened Bytes
  import opened Image
  import Cursor
  import Modular

  const NAME_MAX := 256
  const GROUP_MAX := 256
  const SLASH: byte := 0x2F
  const DOT: byte := 0x2E

  /// An entry as it sits in the listing; `delta` is signed.
  datatype RawEntry = RawEntry(offset: u16, delta: int, typeId: u16, name: seq<byte>)

  /// A header and the entries that share it.
  datatype Group = Group(start: u32, base: u32, entries: seq<RawEntry>)

  /// What a listing resolves to.
  datatype DirEntry = DirEntry(name: seq<byte>, inodeRef: nat, typeId: u16, inodeNumber: u32)

  predicate LegalName(name: seq<byte>) {
    1 <= |name| <= 256 && name != [0x2E] && name != [0x2E, 0x2E] && 0x2F !in name && 0 !in name
  }

  predicate LegalEntry(e: RawEntry) { -0x8000 <= e.delta < 0x8000 && LegalName(e.name) }

  predicate LegalGroup(g: Group) {
    1 <= |g.entries| <= 256 && forall i :: 0 <= i < |g.entries| ==> LegalEntry(g.entries[i])
  }

  predicate LegalGroups(gs: seq<Group>) { forall i :: 0 <= i < |gs| ==> LegalGroup(gs[i]) }

  // ----- the printer -----

  function PrintEntry(e: RawEntry): seq<byte>
    requires LegalEntry(e)
  {
    LeBytes(e.offset, 2)
    + (LeBytes(e.delta % 0x1_0000, 2) + (LeBytes(e.typeId, 2) + (LeBytes(|e.name| - 1, 2) + e.name)))
  }

  function PrintEntries(es: seq<RawEntry>): seq<byte>
    requires forall i :: 0 <= i < |es| ==> LegalEntry(es[i])
  {
    if es == [] then [] else PrintEntry(es[0]) + PrintEntries(es[1..])
  }

  function PrintGroup(g: Group): seq<byte>
    requires LegalGroup(g)
  {
    LeBytes(|g.entries| - 1, 4) + (LeBytes(g.start, 4) + (LeBytes(g.base, 4) + PrintEntries(g.entries)))
  }

  function PrintGroups(gs: seq<Group>): seq<byte>
    requires LegalGroups(gs)
  {
    if gs == [] then [] else PrintGroup(gs[0]) + PrintGroups(gs[1..])
  }

  // ----- the grammar the reader's loops follow -----

  datatype Parsed<+T> = Parsed(value: T, rest: seq<byte>)

  function Word(s: seq<byte>, at: nat, n: nat): (v: nat)
    requires at + n <= |s|
    ensures v < Pow256(n)
  {
    LeValue(s[at..at + n])
  }

  /// `as i16`.
  function Signed(v: nat): int { if v < 0x8000 then v else v - 0x1_0000 }

  function NameFault(name: seq<byte>): Option<DirentFault> {
    if name == [DOT] || name == [DOT, DOT] then Some(ReservedName)
    else if SLASH in name then Some(SlashInName)
    else if 0 in name then Some(NulInName)
    else None
  }

  function ParseEntry(s: seq<byte>): (r: Result<Parsed<RawEntry>, Error>)
    ensures r.Ok? ==> |r.value.rest| < |s|
  {
    if |s| < 8 then Err(BadDirent(TruncatedEntry))
    else
      Pow256Values();
      var n := Word(s, 6, 2) + 1;
      if n > NAME_MAX then Err(BadDirent(NameTooLong))
      else if 8 + n > |s| then Err(BadDirent(TruncatedName))
      else
        var name := s[8..8 + n];
        if NameFault(name).Some? then Err(BadDirent(NameFault(name).value))
        else Ok(Parsed(RawEntry(Word(s, 0, 2), Signed(Word(s, 2, 2)), Word(s, 4, 2), name), s[8 + n..]))
  }

  function ParseEntries(n: nat, s: seq<byte>): (r: Result<Parsed<seq<RawEntry>>, Error>)
    ensures r.Ok? ==> |r.value.rest| <= |s| && |r.value.value| == n
  {
    if n == 0 then Ok(Parsed([], s))
    else
      match ParseEntry(s)
      case Err(e) => Err(e)
      case Ok(p) =>
        match ParseEntries(n - 1, p.rest)
        case Err(e) => Err(e)
        case Ok(q) => Ok(Parsed([p.value] + q.value, q.rest))
  }

  function ParseGroup(s: seq<byte>): (r: Result<Parsed<Group>, Error>)
    ensures r.Ok? ==> |r.value.rest| < |s|
  {
    if |s| < 12 then Err(BadDirent(TruncatedHeader))
    else
      Pow256Values();
      var n := Word(s, 0, 4) + 1;
      if n > GROUP_MAX then Err(BadDirent(TooManyEntries))
      else
        match ParseEntries(n, s[12..])
        case Err(e) => Err(e)
        case Ok(p) => Ok(Parsed(Group(Word(s, 4, 4), Word(s, 8, 4), p.value), p.rest))
  }

  function ParseGroups(s: seq<byte>): (r: Result<seq<Group>, Error>)
    decreases |s|
  {
    if s == [] then Ok([])
    else
      match ParseGroup(s)
      case Err(e) => Err(e)
      case Ok(p) =>
        match ParseGroups(p.rest)
        case Err(e) => Err(e)
        case Ok(gs) => Ok([p.value] + gs)
  }

  // ----- grammar and printer agree -----

  lemma BytesOfWord(s: seq<byte>, at: nat, n: nat)
    requires at + n <= |s|
    ensures LeBytes(Word(s, at, n), n) == s[at..at + n]
  {
    LeBytesOfValue(s[at..at + n]);
  }

  lemma SignedInverse(v: nat, d: int)
    ensures v < 0x1_0000 ==> Signed(v) % 0x1_0000 == v && -0x8000 <= Signed(v) < 0x8000
    ensures -0x8000 <= d < 0x8000 ==> Signed(d % 0x1_0000) == d
  {
  }

  lemma EntrySound(s: seq<byte>)
    requires ParseEntry(s).Ok?
    ensures var p := ParseEntry(s).value; LegalEntry(p.value) && s == PrintEntry(p.value) + p.rest
  {
    hide LeValue, LeBytes;
    Pow256Values();
    var e := ParseEntry(s).value.value;
    BytesOfWord(s, 0, 2);
    BytesOfWord(s, 2, 2);
    BytesOfWord(s, 4, 2);
    BytesOfWord(s, 6, 2);
    SignedInverse(Word(s, 2, 2), 0);
    assert LegalEntry(e);
    var n := |e.name|;
    assert s == s[0..2] + (s[2..4] + (s[4..6] + (s[6..8] + s[8..8 + n]))) + s[8 + n..];
  }

  lemma FourWords(a: seq<byte>, b: seq<byte>, c: seq<byte>, d: seq<byte>, tail: seq<byte>)
    requires |a| == |b| == |c| == |d| == 2
    ensures var s := a + (b + (c + (d + tail)));
            s[0..2] == a && s[2..4] == b && s[4..6] == c && s[6..8] == d && s[8..] == tail
  {
  }

  lemma EntryComplete(e: RawEntry, rest: seq<byte>)
    requires LegalEntry(e)
    ensures ParseEntry(PrintEntry(e) + rest) == Ok(Parsed(e, rest))
  {
    hide LeValue, LeBytes;
    Pow256Values();
    var a, b, c, d := LeBytes(e.offset, 2), LeBytes(e.delta % 0x1_0000, 2), LeBytes(e.typeId, 2),
        LeBytes(|e.name| - 1, 2);
    var tail := e.name + rest;
    var s := PrintEntry(e) + rest;
    assert s == a + (b + (c + (d + tail)));
    FourWords(a, b, c, d, tail);
    LeValueOfBytes(e.offset, 2);
    LeValueOfBytes(e.delta % 0x1_0000, 2);
    LeValueOfBytes(e.typeId, 2);
    LeValueOfBytes(|e.name| - 1, 2);
    SignedInverse(0, e.delta);
    assert s[8..8 + |e.name|] == tail[..|e.name|] == e.name && s[8 + |e.name|..] == tail[|e.name|..] == rest;
  }

  lemma {:induction false} EntriesSound(n: nat, s: seq<byte>)
    requires ParseEntries(n, s).Ok?
    ensures var p := ParseEntries(n, s).value;
            && (forall i :: 0 <= i < |p.value| ==> LegalEntry(p.value[i]))
            && s == PrintEntries(p.value) + p.rest
  {
    hide LegalEntry, ParseEntry, PrintEntry;
    if n > 0 {
      var p := ParseEntry(s).value;
      EntrySound(s);
      EntriesSound(n - 1, p.rest);
      var q := ParseEntries(n - 1, p.rest).value;
      assert ([p.value] + q.value)[1..] == q.value;
    }
  }

  lemma {:induction false} EntriesComplete(es: seq<RawEntry>, rest: seq<byte>)
    requires forall i :: 0 <= i < |es| ==> LegalEntry(es[i])
    ensures ParseEntries(|es|, PrintEntries(es) + rest) == Ok(Parsed(es, rest))
  {
    hide LegalEntry, ParseEntry, PrintEntry;
    if es == [] {
      assert PrintEntries(es) + rest == rest;
    } else {
      var tail := PrintEntries(es[1..]) + rest;
      assert PrintEntries(es) + rest == PrintEntry(es[0]) + tail;
      EntryComplete(es[0], tail);
      EntriesComplete(es[1..], rest);
      assert es == [es[0]] + es[1..];
    }
  }

  lemma GroupSound(s: seq<byte>)
    requires ParseGroup(s).Ok?
    ensures var p := ParseGroup(s).value; LegalGroup(p.value) && s == PrintGroup(p.value) + p.rest && s != []
  {
    hide LeValue, LeBytes, LegalEntry, ParseEntries, PrintEntries;
    Pow256Values();
    BytesOfWord(s, 0, 4);
    BytesOfWord(s, 4, 4);
    BytesOfWord(s, 8, 4);
    EntriesSound(Word(s, 0, 4) + 1, s[12..]);
    assert s == s[0..4] + (s[4..8] + (s[8..12] + s[12..]));
  }

  lemma ThreeWords(a: seq<byte>, b: seq<byte>, c: seq<byte>, tail: seq<byte>)
    requires |a| == |b| == |c| == 4
    ensures var s := a + (b + (c + tail)); s[0..4] == a && s[4..8] == b && s[8..12] == c && s[12..] == tail
  {
  }

  lemma GroupComplete(g: Group, rest: seq<byte>)
    requires LegalGroup(g)
    ensures ParseGroup(PrintGroup(g) + rest) == Ok(Parsed(g, rest))
  {
    hide LeValue, LeBytes, LegalEntry, ParseEntries, PrintEntries;
    Pow256Values();
    var a, b, c := LeBytes(|g.entries| - 1, 4), LeBytes(g.start, 4), LeBytes(g.base, 4);
    var tail := PrintEntries(g.entries) + rest;
    assert PrintGroup(g) + rest == a + (b + (c + tail));
    ThreeWords(a, b, c, tail);
    LeValueOfBytes(|g.entries| - 1, 4);
    LeValueOfBytes(g.start, 4);
    LeValueOfBytes(g.base, 4);
    EntriesComplete(g.entries, rest);
  }

  lemma {:induction false} GroupsSound(s: seq<byte>)
    requires ParseGroups(s).Ok?
    ensures LegalGroups(ParseGroups(s).value) && s == PrintGroups(ParseGroups(s).value)
    decreases |s|
  {
    hide LegalGroup, ParseGroup, PrintGroup;
    if s != [] {
      var p := ParseGroup(s).value;
      GroupSound(s);
      GroupsSound(p.rest);
      assert ([p.value] + ParseGroups(p.rest).value)[1..] == ParseGroups(p.rest).value;
    }
  }

  lemma {:induction false} GroupsComplete(gs: seq<Group>)
    requires LegalGroups(gs)
    ensures ParseGroups(PrintGroups(gs)) == Ok(gs)
  {
    hide LegalGroup, ParseGroup, PrintGroup;
    if gs != [] {
      var tail := PrintGroups(gs[1..]);
      GroupComplete(gs[0], tail);
      GroupSound(PrintGroup(gs[0]) + tail);
      GroupsComplete(gs[1..]);
      assert gs == [gs[0]] + gs[1..];
    }
  }

  /// Every accepted buffer is the print of exactly one list of legal groups, with no byte
  /// left over, and every print is accepted.
  lemma ListingExact(s: seq<byte>, gs: seq<Group>)
    ensures ParseGroups(s) == Ok(gs) <==> LegalGroups(gs) && s == PrintGroups(gs)
  {
    hide LegalGroups, PrintGroups, ParseGroups;
    if ParseGroups(s) == Ok(gs) {
      GroupsSound(s);
    }
    if LegalGroups(gs) {
      GroupsComplete(gs);
    }
  }

  // ----- what the groups resolve to -----

  function Resolve(start: u32, base: u32, e: RawEntry): (d: DirEntry)
    requires LegalEntry(e)
  {
    DirEntry(e.name, 0x1_0000 * start + e.offset, e.typeId, (base + e.delta) % 0x1_0000_0000)
  }

  function ResolveGroup(g: Group, n: nat): (ds: seq<DirEntry>)
    requires (forall i :: 0 <= i < |g.entries| ==> LegalEntry(g.entries[i])) && n <= |g.entries|
    ensures |ds| == n && forall i :: 0 <= i < n ==> ds[i] == Resolve(g.start, g.base, g.entries[i])
  {
    seq(n, i requires 0 <= i < n => Resolve(g.start, g.base, g.entries[i]))
  }

  function ResolveAll(gs: seq<Group>): (ds: seq<DirEntry>)
    requires LegalGroups(gs)
    ensures forall i :: 0 <= i < |ds| ==> LegalName(ds[i].name)
  {
    if gs == [] then [] else ResolveGroup(gs[0], |gs[0].entries|) + ResolveAll(gs[1..])
  }

  /// What `parse_listing` gives for a buffer.
  function Listing(s: seq<byte>): (r: Result<seq<DirEntry>, Error>)
    ensures r.Ok? ==> forall i :: 0 <= i < |r.value| ==> LegalName(r.value[i].name)
  {
    match ParseGroups(s)
    case Err(e) => Err(e)
    case Ok(gs) =>
      GroupsSound(s);
      Ok(ResolveAll(gs))
  }

  /// An entry's packed reference splits back into its header's start and its own offset.
  lemma ReferenceSplits(start: u32, base: u32, e: RawEntry)
    requires LegalEntry(e)
    ensures Cursor.FromPacked(Resolve(start, base, e).inodeRef) == Cursor.MetadataRef(start, e.offset)
  {
    Modular.DivUnique(Resolve(start, base, e).inodeRef, 0x1_0000, start, e.offset);
  }

  /// Every entry of a listing comes from an entry of one of its groups, and its reference
  /// names the block that group's header names and the entry's own offset in it.
  lemma {:induction false} ReferencesSplit(gs: seq<Group>, d: DirEntry) returns (g: Group, e: RawEntry)
    requires LegalGroups(gs) && d in ResolveAll(gs)
    ensures g in gs && e in g.entries && d.name == e.name && d.typeId == e.typeId
    ensures d.inodeNumber == (g.base + e.delta) % 0x1_0000_0000
    ensures Cursor.FromPacked(d.inodeRef) == Cursor.MetadataRef(g.start, e.offset)
  {
    hide LegalEntry;
    var ds := ResolveGroup(gs[0], |gs[0].entries|);
    if d in ds {
      var i :| 0 <= i < |ds| && ds[i] == d;
      g, e := gs[0], gs[0].entries[i];
      ReferenceSplits(g.start, g.base, e);
    } else {
      g, e := ReferencesSplit(gs[1..], d);
      assert gs == [gs[0]] + gs[1..];
    }
  }

  // ----- the loops as the source runs them -----

  method ReadEntry(buf: seq<byte>, p: nat) returns (r: Result<RawEntry, Error>, next: nat)
    requires p <= |buf|
    ensures r.Ok? ==> p < next <= |buf|
    ensures match r
            case Ok(e) => ParseEntry(buf[p..]) == Ok(Parsed(e, buf[next..])) && LegalEntry(e)
            case Err(e) => ParseEntry(buf[p..]) == Err(e)
  {
    hide LeValue;
    Pow256Values();
    ghost var s := buf[p..];
    next := p;
    if p + 8 > |buf| {
      return Err(BadDirent(TruncatedEntry)), p;
    }
    assert s[0..2] == buf[p..p + 2] && s[2..4] == buf[p + 2..p + 4] && s[4..6] == buf[p + 4..p + 6]
        && s[6..8] == buf[p + 6..p + 8];
    var offset, delta := Word(buf, p, 2), Signed(Word(buf, p + 2, 2));
    var typeId, nameLen := Word(buf, p + 4, 2), Word(buf, p + 6, 2) + 1;
    if nameLen > NAME_MAX {
      return Err(BadDirent(NameTooLong)), p;
    }
    if p + 8 + nameLen > |buf| {
      return Err(BadDirent(TruncatedName)), p;
    }
    var name := buf[p + 8..p + 8 + nameLen];
    assert s[8..8 + nameLen] == name && s[8 + nameLen..] == buf[p + 8 + nameLen..];
    if name == [DOT] || name == [DOT, DOT] {
      return Err(BadDirent(ReservedName)), p;
    }
    if SLASH in name {
      return Err(BadDirent(SlashInName)), p;
    }
    if 0 in name {
      return Err(BadDirent(NulInName)), p;
    }
    EntrySound(s);
    return Ok(RawEntry(offset, delta, typeId, name)), p + 8 + nameLen;
  }

  /// What the entry loop will have parsed, given the entries it has.
  ghost function AfterEntries(done: seq<RawEntry>, r: Result<Parsed<seq<RawEntry>>, Error>)
    : Result<Parsed<seq<RawEntry>>, Error>
  {
    match r case Err(e) => Err(e) case Ok(q) => Ok(Parsed(done + q.value, q.rest))
  }

  lemma EntriesStep(n: nat, s: seq<byte>, done: seq<RawEntry>)
    requires n > 0
    ensures match ParseEntry(s)
            case Err(e) => AfterEntries(done, ParseEntries(n, s)) == Err(e)
            case Ok(p) => AfterEntries(done, ParseEntries(n, s)) == AfterEntries(done + [p.value], ParseEntries(n - 1,
                p.rest))
  {
    hide ParseEntry;
    if ParseEntry(s).Ok? {
      var p := ParseEntry(s).value;
      if ParseEntries(n - 1, p.rest).Ok? {
        var q := ParseEntries(n - 1, p.rest).value;
        assert done + ([p.value] + q.value) == (done + [p.value]) + q.value;
      }
    }
  }

  /// The inner loop: the entries of one group, resolved as they are read.
  method ReadEntries(n: nat, start: u32, base: u32, buf: seq<byte>, at: nat)
      returns (r: Result<seq<DirEntry>, Error>, ghost es: seq<RawEntry>, next: nat)
    requires at <= |buf|
    ensures r.Ok? ==> at <= next <= |buf|
    ensures match r
            case Ok(ds) =>
              && ParseEntries(n, buf[at..]) == Ok(Parsed(es, buf[next..])) && |es| == n
              && (forall i :: 0 <= i < n ==> LegalEntry(es[i]))
              && ds == ResolveGroup(Group(start, base, es), n)
            case Err(e) => ParseEntries(n, buf[at..]) == Err(e)
  {
    hide ParseEntry, LegalEntry, ParseEntries;
    var p := at;
    var out: seq<DirEntry> := [];
    es := [];
    EntriesBegin(n, buf[at..]);
    for k := 0 to n
      invariant at <= p <= |buf| && |es| == k && (forall i :: 0 <= i < k ==> LegalEntry(es[i]))
      invariant ParseEntries(n, buf[at..]) == AfterEntries(es, ParseEntries(n - k, buf[p..]))
      invariant out == ResolveGroup(Group(start, base, es), k)
    {
      EntriesStep(n - k, buf[p..], es);
      var e;
      e, p := ReadEntry(buf, p);
      if e.Err? {
        return Err(e.error), es, p;
      }
      es := es + [e.value];
      out := out + [Resolve(start, base, e.value)];
    }
    EntriesEnd(buf[p..], es);
    return Ok(out), es, p;
  }

  lemma EntriesBegin(n: nat, s: seq<byte>)
    ensures ParseEntries(n, s) == AfterEntries([], ParseEntries(n, s))
  {
    hide ParseEntries;
    if ParseEntries(n, s).Ok? {
      assert [] + ParseEntries(n, s).value.value == ParseEntries(n, s).value.value;
    }
  }

  lemma EntriesEnd(s: seq<byte>, es: seq<RawEntry>)
    ensures AfterEntries(es, ParseEntries(0, s)) == Ok(Parsed(es, s))
  {
    assert es + [] == es;
  }

  ghost function AfterGroups(done: seq<Group>, r: Result<seq<Group>, Error>): Result<seq<Group>, Error> {
    match r case Err(e) => Err(e) case Ok(gs) => Ok(done + gs)
  }

  lemma GroupsStep(s: seq<byte>, done: seq<Group>)
    requires s != []
    ensures match ParseGroup(s)
            case Err(e) => AfterGroups(done, ParseGroups(s)) == Err(e)
            case Ok(p) => AfterGroups(done, ParseGroups(s)) == AfterGroups(done + [p.value], ParseGroups(p.rest))
  {
    hide ParseGroup;
    if ParseGroup(s).Ok? {
      var p := ParseGroup(s).value;
      if ParseGroups(p.rest).Ok? {
        assert done + ([p.value] + ParseGroups(p.rest).value) == (done + [p.value]) + ParseGroups(p.rest).value;
      }
    }
  }

  /// One header and its entries.
  method ReadGroup(buf: seq<byte>, p: nat) returns (r: Result<seq<DirEntry>, Error>, ghost g: Group, next: nat)
    requires p < |buf|
    ensures r.Ok? ==> p < next <= |buf|
    ensures match r
            case Ok(ds) => ParseGroup(buf[p..]) == Ok(Parsed(g, buf[next..])) && LegalGroup(g)
                && ds == ResolveGroup(g, |g.entries|)
            case Err(e) => ParseGroup(buf[p..]) == Err(e)
  {
    hide LeValue, ParseEntries, LegalEntry, Resolve;
    Pow256Values();
    ghost var s := buf[p..];
    g, next := Group(0, 0, []), p;
    if p + 12 > |buf| {
      return Err(BadDirent(TruncatedHeader)), g, p;
    }
    assert s[0..4] == buf[p..p + 4] && s[4..8] == buf[p + 4..p + 8] && s[8..12] == buf[p + 8..p + 12]
        && s[12..] == buf[p + 12..];
    var n, start, base := Word(buf, p, 4) + 1, Word(buf, p + 4, 4), Word(buf, p + 8, 4);
    if n > GROUP_MAX {
      return Err(BadDirent(TooManyEntries)), g, p;
    }
    ghost var es;
    r, es, next := ReadEntries(n, start, base, buf, p + 12);
    g := Group(start, base, es);
  }

  lemma {:induction false} ResolveAllAppend(gs: seq<Group>, g: Group)
    requires LegalGroups(gs) && LegalGroup(g)
    ensures LegalGroups(gs + [g]) && ResolveAll(gs + [g]) == ResolveAll(gs) + ResolveGroup(g, |g.entries|)
  {
    hide LegalGroup, ResolveGroup;
    if gs == [] {
      assert [g][1..] == [];
    } else {
      assert (gs + [g])[1..] == gs[1..] + [g];
      ResolveAllAppend(gs[1..], g);
    }
  }

  /// `parse_listing`: group after group until the buffer ends.
  method ParseListing(buf: seq<byte>) returns (r: Result<seq<DirEntry>, Error>)
    ensures r == Listing(buf)
  {
    hide ParseGroup, ParseGroups, LegalGroup, ResolveGroup, ResolveAll;
    var out: seq<DirEntry> := [];
    var p := 0;
    ghost var done: seq<Group> := [];
    GroupsBegin(buf);
    while p < |buf|
      invariant 0 <= p <= |buf| && LegalGroups(done) && out == ResolveAll(done)
      invariant ParseGroups(buf) == AfterGroups(done, ParseGroups(buf[p..]))
    {
      GroupsStep(buf[p..], done);
      ghost var g;
      var ds;
      ds, g, p := ReadGroup(buf, p);
      if ds.Err? {
        return Err(ds.error);
      }
      ResolveAllAppend(done, g);
      out := out + ds.value;
      done := done + [g];
    }
    GroupsEnd(buf[p..], done);
    return Ok(out);
  }

  lemma GroupsBegin(s: seq<byte>)
    ensures ParseGroups(s) == AfterGroups([], ParseGroups(s[0..])) && ResolveAll([]) == []
  {
    assert s[0..] == s;
    if ParseGroups(s).Ok? {
      assert [] + ParseGroups(s).value == ParseGroups(s).value;
    }
  }

  lemma GroupsEnd(s: seq<byte>, done: seq<Group>)
    requires s == []
    ensures AfterGroups(done, ParseGroups(s)) == Ok(done)
  {
    assert done + [] == done;
  }
}
