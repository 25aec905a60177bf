/// Directories and paths: the listing, lookup and path resolution of src/fs.rs.
module Paths {
  import opened Bytes
  import opened Image
  import opened Metadata
  import opened Cursor
  import opened Superblock
  import opened Inode
  import opened FileData
  import Listings = Dir

  type DirEntry = Listings.DirEntry
  const SLASH: byte := Listings.SLASH

  // ----- where the directory table ends -----

  /// The pointer stored at `index`, where there is one, leads past the directory table's
  /// start: to `at`.
  predicate Leads(img: Image, sb: Superblock, index: u64, at: nat) {
    && index != 0xFFFF_FFFF_FFFF_FFFF && index + 8 <= |img.dev|
    && at == LeValue(img.dev[index..index + 8]) && at > sb.directoryTable
  }

  /// The first block of one of the tables whose index starts with a pointer to it; an id or
  /// fragment table without entries has no such pointer.
  predicate FirstBlock(img: Image, sb: Superblock, at: nat) {
    || (sb.fragmentCount > 0 && Leads(img, sb, sb.fragmentTable, at))
    || Leads(img, sb, sb.exportTable, at)
    || (sb.idCount > 0 && Leads(img, sb, sb.idTable, at))
    || Leads(img, sb, sb.xattrIdTable, at)
  }

  /// `directory_table_end`: the nearest of the superblock's bound and every such block.
  method TableEnd(img: Image, sb: Superblock) returns (end: u64)
    ensures end <= DirectoryTableEnd(sb) && forall at: nat :: FirstBlock(img, sb, at) ==> end <= at
    ensures end == DirectoryTableEnd(sb) || FirstBlock(img, sb, end)
  {
    hide LeValue, NearestAfter, Leads;
    var tables := [(sb.fragmentTable, sb.fragmentCount > 0), (sb.exportTable, true), (sb.idTable, sb.idCount > 0),
                   (sb.xattrIdTable, true)];
    end := DirectoryTableEnd(sb);
    for i := 0 to 4
      invariant end <= DirectoryTableEnd(sb) && (end == DirectoryTableEnd(sb) || FirstBlock(img, sb, end))
      invariant forall k, at :: 0 <= k < i && tables[k].1 && Leads(img, sb, tables[k].0, at) ==> end <= at
    {
      var (start, hasBlocks) := tables[i];
      LeadsWhere(img, sb, start);
      if start != NO_TABLE && hasBlocks {
        var first := ReadAt(img.dev, start, 8);
        if first.Ok? && LeValue(first.value) > sb.directoryTable {
          end := Min(end, LeValue(first.value));
        }
      }
    }
    assert tables[0].1 == (sb.fragmentCount > 0) && tables[1].1 && tables[2].1 == (sb.idCount > 0) && tables[3].1;
  }

  lemma LeadsWhere(img: Image, sb: Superblock, index: u64)
    ensures var first := ReadAt(img.dev, index, 8);
            forall at: nat :: Leads(img, sb, index, at) <==>
                      index != NO_TABLE && first.Ok? && at == LeValue(first.value) && at > sb.directoryTable
  {
  }

  // ----- a directory's entries -----

  function ListingStart(fs: Filesystem, node: Inode): u64 {
    MetadataRef(node.dirStartBlock, node.dirBlockOffset).StartAbs(fs.sb.directoryTable)
  }

  function ListingLimit(fs: Filesystem): Limit { Limit(fs.dirTableEnd, BadMetadata(PastTableEnd)) }

  /// What a directory lists: its length off the stream that starts at its reference and
  /// ends with the directory table.
  function DirListing(fs: Filesystem, node: Inode): (r: Result<seq<DirEntry>, Error>)
    ensures r.Ok? ==> node.IsDir() && forall i :: 0 <= i < |r.value| ==> Listings.LegalName(r.value[i].name)
  {
    if !node.IsDir() then Err(NotADirectory)
    else if node.ListingLength() == 0 then Ok([])
    else
      match StreamAt(fs.img, Some(ListingLimit(fs)), ListingStart(fs, node), node.dirBlockOffset)
      case Err(e) => Err(e)
      case Ok(t) =>
        match Take(t, node.ListingLength()).r
        case Err(e) => Err(e)
        case Ok(buf) => Listings.Listing(buf)
  }

  /// A directory whose bytes are the print of some groups lists what they resolve to; one
  /// whose bytes are no print lists nothing.
  lemma PrintedDirectoryLists(fs: Filesystem, node: Inode, t: Tail, gs: seq<Listings.Group>)
    requires node.IsDir() && 0 < node.ListingLength() <= |t.bytes| && Listings.LegalGroups(gs)
    requires StreamAt(fs.img, Some(ListingLimit(fs)), ListingStart(fs, node), node.dirBlockOffset) == Ok(t)
    ensures t.bytes[..node.ListingLength()] == Listings.PrintGroups(gs)
        ==> DirListing(fs, node) == Ok(Listings.ResolveAll(gs))
    ensures DirListing(fs, node).Ok? ==>
              exists hs ::
                Listings.LegalGroups(hs) && t.bytes[..node.ListingLength()] == Listings.PrintGroups(hs)
  {
    var buf := t.bytes[..node.ListingLength()];
    Listings.ListingExact(buf, gs);
    if Listings.ParseGroups(buf).Ok? {
      Listings.ListingExact(buf, Listings.ParseGroups(buf).value);
    }
  }

  /// `read_dir`. After its first block it pulls only blocks that start before the end of
  /// the directory table, so the length a directory declares does not bound its work: the
  /// table does, at three bytes a block.
  method ReadDir(fs: Filesystem, node: Inode, cache: MetaCache?) returns (r: Result<seq<DirEntry>, Error>,
      ghost refills: nat)
    requires CacheValid(fs.img, cache) && SoundCodec(fs.img)
    modifies cache
    ensures CacheValid(fs.img, cache)
    ensures r == DirListing(fs, node)
    ensures refills > 0 ==> Pull(fs.img, ListingStart(fs, node)).Ok?
                            && Pull(fs.img, ListingStart(fs, node)).value.next + 3 * refills < fs.dirTableEnd + 3
  {
    hide StreamAt, Pull, SoundCodec;
    refills := 0;
    if !node.IsDir() {
      return Err(NotADirectory), 0;
    }
    var len := node.ListingLength();
    if len == 0 {
      return Ok([]), 0;
    }
    var limit := ListingLimit(fs);
    var start := OpenLimited(fs.img, ListingStart(fs, node), node.dirBlockOffset, cache, limit.end, limit.why);
    if start.Err? {
      return Err(start.error), 0;
    }
    var cursor := start.value;
    var buf := cursor.ReadExact(len);
    cursor.RefillsBounded();
    refills := |cursor.pulled|;
    if buf.Err? {
      return Err(buf.error), refills;
    }
    r := Listings.ParseListing(buf.value);
  }

  /// A directory whose size says no more than the three bytes nobody stores lists nothing.
  lemma EmptyDirectoryLists(fs: Filesystem, node: Inode)
    requires node.IsDir() && node.fileSize <= 3
    ensures DirListing(fs, node) == Ok([])
  {
  }

  // ----- one name -----

  /// The first entry with a name.
  function FirstNamed(es: seq<DirEntry>, name: seq<byte>): (r: Option<DirEntry>)
    ensures r.Some? ==> r.value.name == name && r.value in es
    ensures r.Some? <==> exists i :: 0 <= i < |es| && es[i].name == name
  {
    if es == [] then None
    else if es[0].name == name then Some(es[0])
    else
      var rest := FirstNamed(es[1..], name);
      assert forall i :: 1 <= i < |es| ==> es[i] == es[1..][i - 1];
      rest
  }

  lemma {:induction false} FirstNamedIsFirst(es: seq<DirEntry>, k: nat)
    requires k < |es| && forall j :: 0 <= j < k ==> es[j].name != es[k].name
    ensures FirstNamed(es, es[k].name) == Some(es[k])
  {
    if k > 0 {
      FirstNamedIsFirst(es[1..], k - 1);
    }
  }

  function Child(fs: Filesystem, node: Inode, name: seq<byte>): (r: Result<Inode, Error>) {
    match DirListing(fs, node)
    case Err(e) => Err(e)
    case Ok(es) =>
      match FirstNamed(es, name)
      case None => Err(NotFound)
      case Some(e) => InodeAt(fs.img, fs.sb, e.inodeRef)
  }

  /// `lookup`: a scan of the listing.
  method Lookup(fs: Filesystem, node: Inode, name: seq<byte>, cache: MetaCache?) returns (r: Result<Inode, Error>)
    requires CacheValid(fs.img, cache) && SoundCodec(fs.img)
    modifies cache
    ensures CacheValid(fs.img, cache)
    ensures r == Child(fs, node, name)
  {
    hide DirListing, InodeAt, SoundCodec;
    var listed, _ := ReadDir(fs, node, cache);
    if listed.Err? {
      return Err(listed.error);
    }
    var es := listed.value;
    for i := 0 to |es|
      invariant CacheValid(fs.img, cache)
      invariant forall j :: 0 <= j < i ==> es[j].name != name
    {
      if es[i].name == name {
        FirstNamedIsFirst(es, i);
        r := ReadInode(fs.img, fs.sb, es[i].inodeRef, cache);
        return;
      }
    }
    return Err(NotFound);
  }

  // ----- paths -----

  /// The pieces between slashes, empty ones included.
  function Split(path: seq<byte>): (r: seq<seq<byte>>)
    ensures |r| > 0
  {
    if path == [] then [[]] else Pushed(path[0], Split(path[1..]))
  }

  /// A byte in front of the first piece, or a slash that starts a new one.
  function Pushed(c: byte, pieces: seq<seq<byte>>): (r: seq<seq<byte>>)
    requires |pieces| > 0
    ensures |r| > 0
  {
    if c == SLASH then [[]] + pieces else [[c] + pieces[0]] + pieces[1..]
  }

  function NonEmpty(pieces: seq<seq<byte>>): (r: seq<seq<byte>>)
    ensures forall i :: 0 <= i < |r| ==> r[i] != []
  {
    if pieces == [] then [] else (if pieces[0] == [] then [] else [pieces[0]]) + NonEmpty(pieces[1..])
  }

  function Components(path: seq<byte>): seq<seq<byte>> { NonEmpty(Split(path)) }

  function Descend(fs: Filesystem, node: Inode, names: seq<seq<byte>>): (r: Result<Inode, Error>)
    decreases |names|
  {
    if names == [] then Ok(node)
    else if !node.IsDir() then Err(NotADirectory)
    else
      match Child(fs, node, names[0])
      case Err(e) => Err(e)
      case Ok(next) => Descend(fs, next, names[1..])
  }

  /// Going on from what has been reached, if anything has.
  function DescendFrom(fs: Filesystem, reached: Result<Inode, Error>, names: seq<seq<byte>>)
    : (r: Result<Inode, Error>)
  {
    match reached
    case Err(e) => Err(e)
    case Ok(node) => Descend(fs, node, names)
  }

  function Resolve(fs: Filesystem, path: seq<byte>): (r: Result<Inode, Error>) {
    DescendFrom(fs, InodeAt(fs.img, fs.sb, fs.sb.rootInodeRef), Components(path))
  }

  /// `lookup_path_bytes`: from the root, one non-empty piece after the other.
  method LookupPath(fs: Filesystem, path: seq<byte>, cache: MetaCache?) returns (r: Result<Inode, Error>)
    requires CacheValid(fs.img, cache) && SoundCodec(fs.img)
    modifies cache
    ensures CacheValid(fs.img, cache)
    ensures r == Resolve(fs, path)
  {
    hide Child, InodeAt, SoundCodec, Split, NonEmpty;
    var root := ReadInode(fs.img, fs.sb, fs.sb.rootInodeRef, cache);
    if root.Err? {
      return root;
    }
    var node := root.value;
    var names := Components(path);
    assert names[0..] == names;
    for i := 0 to |names|
      invariant CacheValid(fs.img, cache)
      invariant Resolve(fs, path) == Descend(fs, node, names[i..])
    {
      if !node.IsDir() {
        return Err(NotADirectory);
      }
      assert names[i..][0] == names[i] && names[i..][1..] == names[i + 1..];
      var next := Lookup(fs, node, names[i], cache);
      if next.Err? {
        return next;
      }
      node := next.value;
    }
    return Ok(node);
  }

  // ----- how paths compose -----

  lemma PushedJoined(c: byte, a: seq<seq<byte>>, b: seq<seq<byte>>)
    requires |a| > 0
    ensures Pushed(c, a + b) == Pushed(c, a) + b
  {
    assert (a + b)[1..] == a[1..] + b;
  }

  lemma EmptyPiece(pieces: seq<seq<byte>>)
    requires |pieces| > 0
    ensures Pushed(SLASH, pieces) == [[]] + pieces
  {
  }

  lemma {:induction false} SplitJoined(p: seq<byte>, q: seq<byte>)
    ensures Split(p + [SLASH] + q) == Split(p) + Split(q)
  {
    hide Pushed;
    var whole := p + [SLASH] + q;
    if p == [] {
      assert whole[1..] == q && whole[0] == SLASH;
      EmptyPiece(Split(q));
    } else {
      assert whole[1..] == p[1..] + [SLASH] + q;
      SplitJoined(p[1..], q);
      PushedJoined(p[0], Split(p[1..]), Split(q));
    }
  }

  lemma {:induction false} NonEmptyJoined(a: seq<seq<byte>>, b: seq<seq<byte>>)
    ensures NonEmpty(a + b) == NonEmpty(a) + NonEmpty(b)
  {
    if a == [] {
      assert a + b == b;
    } else {
      assert (a + b)[1..] == a[1..] + b;
      NonEmptyJoined(a[1..], b);
    }
  }

  /// One or more slashes join two paths' components.
  lemma {:induction false} ComponentsJoined(p: seq<byte>, slashes: nat, q: seq<byte>)
    requires slashes > 0
    ensures Components(p + seq(slashes, _ => SLASH) + q) == Components(p) + Components(q)
  {
    hide Split, NonEmpty;
    var run := seq(slashes, _ => SLASH);
    if slashes == 1 {
      assert run == [SLASH];
      SplitJoined(p, q);
      NonEmptyJoined(Split(p), Split(q));
    } else {
      var less := seq(slashes - 1, _ => SLASH);
      assert p + run + q == p + less + ([] + [SLASH] + q);
      ComponentsJoined(p, slashes - 1, [] + [SLASH] + q);
      SplitJoined([], q);
      NonEmptyJoined(Split([]), Split(q));
      NoComponents();
    }
  }

  lemma NoComponents()
    ensures Components([]) == []
  {
  }

  lemma SlashJoins(p: seq<byte>, q: seq<byte>)
    ensures Components(p + [SLASH] + q) == Components(p) + Components(q)
    ensures Components([SLASH] + q) == Components(q)
  {
    hide Components;
    var one := seq(1, _ => SLASH);
    assert one == [SLASH] && [SLASH] + q == [] + one + q;
    ComponentsJoined(p, 1, q);
    ComponentsJoined([], 1, q);
    NoComponents();
  }

  /// A legal name is one component: itself.
  lemma OneComponent(name: seq<byte>)
    requires SLASH !in name && name != []
    ensures Components(name) == [name]
  {
    OnePiece(name);
    assert NonEmpty([name][1..]) == [];
  }

  lemma {:induction false} OnePiece(name: seq<byte>)
    requires SLASH !in name
    ensures Split(name) == [name]
  {
    if name != [] {
      OnePiece(name[1..]);
      assert name[0] in name && name == [name[0]] + name[1..];
    }
  }

  lemma {:induction false} DescendJoined(fs: Filesystem, node: Inode, a: seq<seq<byte>>, b: seq<seq<byte>>)
    ensures Descend(fs, node, a + b) == DescendFrom(fs, Descend(fs, node, a), b)
    decreases |a|
  {
    hide Child;
    if a == [] {
      assert a + b == b;
    } else if node.IsDir() && Child(fs, node, a[0]).Ok? {
      assert (a + b)[1..] == a[1..] + b;
      DescendJoined(fs, Child(fs, node, a[0]).value, a[1..], b);
    }
  }

  /// Resolving p, slashes and q is resolving p and walking q's components from there.
  lemma PathsCompose(fs: Filesystem, p: seq<byte>, slashes: nat, q: seq<byte>)
    requires slashes > 0
    ensures Resolve(fs, p + seq(slashes, _ => SLASH) + q) == DescendFrom(fs, Resolve(fs, p), Components(q))
  {
    hide Components, Descend, InodeAt;
    ComponentsJoined(p, slashes, q);
    var root := InodeAt(fs.img, fs.sb, fs.sb.rootInodeRef);
    if root.Ok? {
      DescendJoined(fs, root.value, Components(p), Components(q));
    }
  }

  /// A path and a name under it.
  function Under(path: seq<byte>, name: seq<byte>): seq<byte> { path + [SLASH] + name }

  /// Any name a directory lists, handed back under the directory's path, reaches the first
  /// entry with that name.
  lemma ListedNamesResolve(fs: Filesystem, path: seq<byte>, node: Inode, k: nat)
    requires Resolve(fs, path) == Ok(node) && DirListing(fs, node).Ok? && k < |DirListing(fs, node).value|
    requires var es := DirListing(fs, node).value; forall j :: 0 <= j < k ==> es[j].name != es[k].name
    ensures var e := DirListing(fs, node).value[k];
            Resolve(fs, Under(path, e.name)) == InodeAt(fs.img, fs.sb, e.inodeRef)
  {
    hide Components, InodeAt, DirListing, Resolve;
    var es := DirListing(fs, node).value;
    var name := es[k].name;
    assert seq(1, _ => SLASH) == [SLASH];
    PathsCompose(fs, path, 1, name);
    OneComponent(name);
    FirstNamedIsFirst(es, k);
    assert Descend(fs, node, [name]) == Child(fs, node, name);
    assert Child(fs, node, name) == InodeAt(fs.img, fs.sb, es[k].inodeRef);
  }
}
