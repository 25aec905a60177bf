/// What the recursive listing of src/cli/squashfs/fs.rs reaches: everything, exactly when
/// directories have inode numbers of their own.
module Reach {
  import opened Bytes
  import opened Image
  import opened Inode
  import opened FileData
  import opened Paths
  import opened Walk

  // ----- what can be reached, and what is listed of it -----

  /// The inode behind a directory's k-th entry.
  function EntryInode(fs: Filesystem, parent: Inode, k: nat): (r: Option<Inode>) {
    match DirListing(fs, parent)
    case Err(_) => None
    case Ok(es) =>
      if k >= |es| then None
      else
        match InodeAt(fs.img, fs.sb, es[k].inodeRef)
        case Err(_) => None
        case Ok(i) => Some(i)
  }

  /// The inode a trail of entry positions leads to.
  function Follow(fs: Filesystem, root: Inode, trail: seq<nat>): (r: Option<Inode>)
    decreases |trail|
  {
    if trail == [] then Some(root)
    else
      match Follow(fs, root, trail[..|trail| - 1])
      case None => None
      case Some(parent) => EntryInode(fs, parent, trail[|trail| - 1])
  }

  ghost predicate Reached(fs: Filesystem, root: Inode, i: Inode) { exists trail :: Follow(fs, root, trail) == Some(i) }

  /// The image gives no two of the directories that can be reached one number.
  ghost predicate OwnNumbers(fs: Filesystem, root: Inode) {
    forall a, b ::
      Reached(fs, root, a) && Reached(fs, root, b) && a.IsDir() && b.IsDir() && a.number == b.number ==> a == b
  }

  ghost predicate IsListed(root: Inode, lines: seq<Line>, i: Inode) {
    i == root || exists line :: line in lines && line.inode == i
  }

  /// The walk went into a directory: it is where the walk started, or its entries follow
  /// some line.
  ghost predicate IsEntered(root: Inode, lines: seq<Line>, i: Inode) {
    i == root || exists line :: line in lines && line.Expanded() && line.inode == i
  }

  /// The walk went into every directory that can be reached.
  ghost predicate EntersAll(fs: Filesystem, root: Inode, lines: seq<Line>) {
    forall i :: Reached(fs, root, i) && i.IsDir() ==> IsEntered(root, lines, i)
  }

  lemma ReachedChild(fs: Filesystem, root: Inode, parent: Inode, e: DirEntry, i: Inode)
    requires Reached(fs, root, parent) && DirListing(fs, parent).Ok? && e in DirListing(fs, parent).value
    requires InodeAt(fs.img, fs.sb, e.inodeRef) == Ok(i)
    ensures Reached(fs, root, i)
  {
    hide DirListing, InodeAt;
    var trail :| Follow(fs, root, trail) == Some(parent);
    var k: nat :| k < |DirListing(fs, parent).value| && DirListing(fs, parent).value[k] == e;
    assert (trail + [k])[..|trail|] == trail;
    assert Follow(fs, root, trail + [k]) == Some(i);
  }

  /// What a path reaches can be reached.
  lemma {:induction false} PathsReach(fs: Filesystem, root: Inode, names: seq<seq<byte>>, i: Inode)
    requires Descend(fs, root, names) == Ok(i)
    ensures Reached(fs, root, i)
    decreases |names|
  {
    hide DirListing, InodeAt, Reached;
    if names == [] {
      StartReached(fs, root);
    } else {
      var n := |names| - 1;
      assert names == names[..n] + [names[n]];
      DescendJoined(fs, root, names[..n], [names[n]]);
      var parent := Descend(fs, root, names[..n]).value;
      OneStep(fs, parent, names[n]);
      PathsReach(fs, root, names[..n], parent);
      ReachedChild(fs, root, parent, FirstNamed(DirListing(fs, parent).value, names[n]).value, i);
    }
  }

  lemma OneStep(fs: Filesystem, node: Inode, name: seq<byte>)
    ensures Descend(fs, node, [name]) == if node.IsDir() then Child(fs, node, name) else Err(NotADirectory)
  {
    hide Child;
    if node.IsDir() && Child(fs, node, name).Ok? {
      assert Descend(fs, Child(fs, node, name).value, [name][1..]) == Child(fs, node, name);
    }
  }

  lemma StartReached(fs: Filesystem, root: Inode)
    ensures Reached(fs, root, root)
  {
    assert Follow(fs, root, []) == Some(root);
  }

  // Every line of a walk is about something that can be reached.

  ghost predicate AllReached(fs: Filesystem, root: Inode, lines: seq<Line>) {
    forall line :: line in lines ==> Reached(fs, root, line.inode)
  }

  lemma {:induction false} EnteredReached(fs: Filesystem, root: Inode, full: seq<byte>, depth: nat, i: Inode,
      visited: set<nat>)
    requires i.number < 0x1_0000_0000 && Reached(fs, root, i)
    ensures AllReached(fs, root, Entered(fs, full, depth, i, visited).lines)
    decreases Unvisited(visited), 0, 0
  {
    hide Entries, DirListing, Reached, SortByName;
    if i.IsDir() && i.number !in visited && SortedListing(fs, i).Ok? {
      var seen := visited + {i.number};
      VisitShrinks(visited, i.number, seen);
      forall e | e in SortedListing(fs, i).value ensures e in DirListing(fs, i).value {
        SortKeeps(DirListing(fs, i).value, e);
      }
      EntriesReached(fs, root, full, depth, SortedListing(fs, i).value, seen, i);
    }
  }

  lemma {:induction false} EntriesReached(fs: Filesystem, root: Inode, path: seq<byte>, depth: nat, es: seq<DirEntry>,
      visited: set<nat>, node: Inode)
    requires Reached(fs, root, node) && DirListing(fs, node).Ok?
    requires forall e :: e in es ==> e in DirListing(fs, node).value
    ensures AllReached(fs, root, Entries(fs, path, depth, es, visited).lines)
    decreases Unvisited(visited), 1, |es|
  {
    hide Join, InodeAt, Entered, DirListing, Reached;
    if es != [] && InodeAt(fs.img, fs.sb, es[0].inodeRef).Ok? {
      NumberFits(fs.img, fs.sb, es[0].inodeRef);
      var i := InodeAt(fs.img, fs.sb, es[0].inodeRef).value;
      var full := Join(path, es[0].name);
      ReachedChild(fs, root, node, es[0], i);
      var first := Entered(fs, full, depth + 1, i, visited);
      EnteredReached(fs, root, full, depth + 1, i, visited);
      if first.stop.None? {
        MoreVisited(visited, first.visited);
        assert forall e :: e in es[1..] ==> e in es;
        EntriesReached(fs, root, path, depth, es[1..], first.visited, node);
      }
    }
  }

  lemma LinesReached(fs: Filesystem, full: seq<byte>, root: Inode)
    requires root.IsDir()
    ensures AllReached(fs, root, WalkFrom(fs, full, root).lines)
  {
    hide Entries, DirListing, Reached, SortByName;
    StartReached(fs, root);
    if SortedListing(fs, root).Ok? {
      forall e | e in SortedListing(fs, root).value ensures e in DirListing(fs, root).value {
        SortKeeps(DirListing(fs, root).value, e);
      }
      EntriesReached(fs, root, full, 0, SortedListing(fs, root).value, {root.number}, root);
    }
  }

  // A directory number is entered under once, and the first line about it enters.

  lemma EnteredOnce(fs: Filesystem, full: seq<byte>, root: Inode, a: Inode, b: Inode)
    requires root.IsDir()
    requires var lines := WalkFrom(fs, full, root).lines; IsEntered(root, lines, a) && IsEntered(root, lines, b)
    requires a.number == b.number
    ensures a == b
  {
    hide Entries, SortedListing, Marked;
    var lines := WalkFrom(fs, full, root).lines;
    if SortedListing(fs, root).Ok? {
      var es := SortedListing(fs, root).value;
      EntriesMarked(fs, full, 0, es, {root.number});
      forall k | 0 <= k < |lines| && lines[k].Expanded() ensures lines[k].inode.number != root.number {
        MarkedMeans(lines, {root.number}, k);
        SeenAfterMeans({root.number}, lines[..k], lines[k].inode.number);
      }
      if a != root && b != root {
        var j :| 0 <= j < |lines| && lines[j].Expanded() && lines[j].inode == a;
        var k :| 0 <= k < |lines| && lines[k].Expanded() && lines[k].inode == b;
        if j < k {
          ExpandedOnce(fs, full, 0, es, {root.number}, j, k);
        } else if k < j {
          ExpandedOnce(fs, full, 0, es, {root.number}, k, j);
        }
      }
    }
  }

  lemma {:induction false} FirstMeeting(lines: seq<Line>, visited: set<nat>, n: nat) returns (line: Line)
    requires Marked(lines, visited) && n !in visited
    requires exists line :: line in lines && line.inode.IsDir() && line.inode.number == n
    ensures line in lines && line.Expanded() && line.inode.number == n
    decreases |lines|
  {
    if lines[0].inode.IsDir() && lines[0].inode.number == n {
      line := lines[0];
    } else {
      assert lines == [lines[0]] + lines[1..];
      line := FirstMeeting(lines[1..], Seen(visited, lines[0]), n);
    }
  }

  /// For every directory that is listed, one of its number is entered.
  lemma SomeLineEnters(fs: Filesystem, full: seq<byte>, root: Inode, i: Inode) returns (entered: Inode)
    requires var w := WalkFrom(fs, full, root); root.IsDir() && w.stop.None? && IsListed(root, w.lines, i) && i.IsDir()
    ensures var lines := WalkFrom(fs, full, root).lines;
            && IsEntered(root, lines, entered) && IsListed(root, lines, entered)
            && entered.IsDir() && entered.number == i.number
  {
    hide Entries, SortedListing, Marked;
    var lines := WalkFrom(fs, full, root).lines;
    if i.number == root.number {
      entered := root;
    } else {
      EntriesMarked(fs, full, 0, SortedListing(fs, root).value, {root.number});
      var line := FirstMeeting(lines, {root.number}, i.number);
      entered := line.inode;
    }
  }

  /// Every entry of a directory that was entered is listed.
  lemma EntryIsListed(fs: Filesystem, full: seq<byte>, root: Inode, parent: Inode, k: nat)
    requires var w := WalkFrom(fs, full, root); root.IsDir() && w.stop.None? && IsEntered(root, w.lines, parent)
    requires EntryInode(fs, parent, k).Some?
    ensures IsListed(root, WalkFrom(fs, full, root).lines, EntryInode(fs, parent, k).value)
  {
    hide DirListing, InodeAt, Entries, SortByName, Join;
    var lines := WalkFrom(fs, full, root).lines;
    var e := DirListing(fs, parent).value[k];
    SortKeeps(DirListing(fs, parent).value, e);
    EntriesWhole(fs, full, 0, SortedListing(fs, root).value, {root.number});
    if parent == root {
      assert HasChild(fs, lines, full, 0, e);
    } else {
      var line :| line in lines && line.Expanded() && line.inode == parent;
      assert Whole(fs, lines, line);
      assert HasChild(fs, lines, line.path, line.depth, e);
    }
  }

  /// When directories have their own numbers, a walk that ends of its own accord misses
  /// nothing: whatever can be reached is on some line, and every directory is entered.
  lemma {:induction false} EverythingReachableIsListed(fs: Filesystem, full: seq<byte>, root: Inode, trail: seq<nat>,
      i: Inode)
    requires root.IsDir() && WalkFrom(fs, full, root).stop.None? && OwnNumbers(fs, root)
    requires Follow(fs, root, trail) == Some(i)
    ensures IsListed(root, WalkFrom(fs, full, root).lines, i)
    ensures i.IsDir() ==> IsEntered(root, WalkFrom(fs, full, root).lines, i)
    decreases |trail|
  {
    hide WalkFrom, EntryInode, IsListed, IsEntered, OwnNumbers;
    if trail == [] {
      RootIsListed(root, WalkFrom(fs, full, root).lines);
    } else {
      var parent := Follow(fs, root, trail[..|trail| - 1]).value;
      OnlyDirectoriesList(fs, parent, trail[|trail| - 1]);
      EverythingReachableIsListed(fs, full, root, trail[..|trail| - 1], parent);
      EntryIsListed(fs, full, root, parent, trail[|trail| - 1]);
      if i.IsDir() {
        assert Reached(fs, root, i);
        ListedIsEntered(fs, full, root, i);
      }
    }
  }

  lemma RootIsListed(root: Inode, lines: seq<Line>)
    ensures IsListed(root, lines, root) && IsEntered(root, lines, root)
  {
  }

  lemma OnlyDirectoriesList(fs: Filesystem, parent: Inode, k: nat)
    ensures EntryInode(fs, parent, k).Some? ==> parent.IsDir()
  {
    hide InodeAt;
  }

  lemma ListedIsEntered(fs: Filesystem, full: seq<byte>, root: Inode, i: Inode)
    requires var w := WalkFrom(fs, full, root); root.IsDir() && w.stop.None? && IsListed(root, w.lines, i) && i.IsDir()
    requires OwnNumbers(fs, root) && Reached(fs, root, i)
    ensures IsEntered(root, WalkFrom(fs, full, root).lines, i)
  {
    hide WalkFrom, Reached;
    var entered := SomeLineEnters(fs, full, root, i);
    StartReached(fs, root);
    LinesReached(fs, full, root);
  }

  /// The exact condition: a walk that ends of its own accord goes into every directory that
  /// can be reached if and only if the image gives those directories numbers of their own.
  lemma EntersAllExactly(fs: Filesystem, full: seq<byte>, root: Inode)
    requires root.IsDir() && WalkFrom(fs, full, root).stop.None?
    ensures EntersAll(fs, root, WalkFrom(fs, full, root).lines) <==> OwnNumbers(fs, root)
  {
    hide WalkFrom, Follow, IsEntered;
    var lines := WalkFrom(fs, full, root).lines;
    if OwnNumbers(fs, root) {
      forall i | Reached(fs, root, i) && i.IsDir() ensures IsEntered(root, lines, i) {
        var trail :| Follow(fs, root, trail) == Some(i);
        EverythingReachableIsListed(fs, full, root, trail, i);
      }
    }
    if EntersAll(fs, root, lines) {
      forall a, b | Reached(fs, root, a) && Reached(fs, root, b) && a.IsDir() && b.IsDir() && a.number == b.number
        ensures a == b
      {
        EnteredOnce(fs, full, root, a, b);
      }
    }
  }

  /// A recursive listing that ends without an error or a bound, over directories with their
  /// own numbers, lists every inode that any path below its start reaches.
  lemma DoneListsEverything(fs: Filesystem, path: seq<byte>, root: Inode, limit: nat, maxDepth: nat, more: seq<byte>,
      i: Inode)
    requires Resolve(fs, path) == Ok(root) && root.IsDir() && OwnNumbers(fs, root)
    requires Bounded(WalkFrom(fs, Shown(path), root), 0, limit, maxDepth).outcome == Done
    requires Resolve(fs, path + [SLASH] + more) == Ok(i)
    ensures IsListed(root, Bounded(WalkFrom(fs, Shown(path), root), 0, limit, maxDepth).lines, i)
  {
    hide WalkFrom, Bounded, Resolve, Components, OwnNumbers, IsListed, Shown, Follow;
    BoundedIsPrefix(WalkFrom(fs, Shown(path), root), 0, limit, maxDepth);
    assert seq(1, _ => SLASH) == [SLASH];
    PathsCompose(fs, path, 1, more);
    PathsReach(fs, root, Components(more), i);
    var trail :| Follow(fs, root, trail) == Some(i);
    EverythingReachableIsListed(fs, Shown(path), root, trail, i);
  }

  // ----- where it fails -----

  /// Two directories of one number: the second is marked as revisited and not entered, so
  /// what only it lists is on no line, although the walk ends without an error.
  lemma SharedNumberHidesEntries(fs: Filesystem, full: seq<byte>, root: Inode, ea: DirEntry, eb: DirEntry,
      ec: DirEntry, a: Inode, b: Inode, c: Inode)
    requires root.IsDir() && DirListing(fs, root) == Ok([ea, eb]) && ea.name != eb.name && NameLe(ea.name, eb.name)
    requires InodeAt(fs.img, fs.sb, ea.inodeRef) == Ok(a) && InodeAt(fs.img, fs.sb, eb.inodeRef) == Ok(b)
    requires a.IsDir() && b.IsDir() && a.number == b.number != root.number
    requires DirListing(fs, a) == Ok([]) && DirListing(fs, b) == Ok([ec])
    requires InodeAt(fs.img, fs.sb, ec.inodeRef) == Ok(c) && !c.IsDir()
    ensures var w := WalkFrom(fs, full, root);
            && w.stop.None? && |w.lines| == 2 && (forall line :: line in w.lines ==> line.depth == 1)
            && Descend(fs, root, [eb.name, ec.name]) == Ok(c) && !IsListed(root, w.lines, c)
            && !OwnNumbers(fs, root)
  {
    hide DirListing, InodeAt, Join, NameLe, OwnNumbers;
    assert SortByName([]) == [] && SortByName([ec]) == [ec] by {
      assert [ec][1..] == [];
    }
    assert SortByName([ea, eb]) == [ea, eb] by {
      assert [ea, eb][1..] == [eb] && [eb][1..] == [];
      assert SortByName([eb]) == [eb];
    }
    var la, lb := Line(Join(full, ea.name), 1, a, false), Line(Join(full, eb.name), 1, b, true);
    NumberFits(fs.img, fs.sb, ea.inodeRef);
    NumberFits(fs.img, fs.sb, eb.inodeRef);
    var seen := {root.number} + {a.number};
    NoEntries(fs, la.path, 1, seen);
    assert Entered(fs, la.path, 1, a, {root.number}) == Walked([la], seen, None) by {
      assert [la] + [] == [la];
    }
    assert Entered(fs, lb.path, 1, b, seen) == Walked([lb], seen, None);
    NoEntries(fs, full, 0, seen);
    SecondEntry(fs, full, eb, b, seen, lb);
    assert [ea, eb][1..] == [eb];
    assert WalkFrom(fs, full, root).lines == [la] + [lb];
    FirstOfTwo(ea, eb);
    assert Child(fs, root, eb.name) == Ok(b) && Child(fs, b, ec.name) == Ok(c) by {
      assert FirstNamed([ec], ec.name) == Some(ec);
    }
    assert [eb.name, ec.name][1..] == [ec.name];
    OneStep(fs, b, ec.name);
    StartReached(fs, root);
    ReachedChild(fs, root, root, ea, a);
    ReachedChild(fs, root, root, eb, b);
    DifferentListings(fs, root, a, b);
  }

  lemma SecondEntry(fs: Filesystem, full: seq<byte>, e: DirEntry, i: Inode, seen: set<nat>, line: Line)
    requires InodeAt(fs.img, fs.sb, e.inodeRef) == Ok(i) && i.number < 0x1_0000_0000
    requires Entered(fs, Join(full, e.name), 1, i, seen) == Walked([line], seen, None)
    ensures Entries(fs, full, 0, [e], seen) == Walked([line], seen, None)
  {
    hide InodeAt, Entered, Join;
    assert [e][1..] == [];
    NoEntries(fs, full, 0, seen);
    assert [line] + [] == [line];
  }

  lemma FirstOfTwo(ea: DirEntry, eb: DirEntry)
    requires ea.name != eb.name
    ensures FirstNamed([ea, eb], eb.name) == Some(eb)
  {
    assert [ea, eb][1..] == [eb];
  }

  lemma DifferentListings(fs: Filesystem, root: Inode, a: Inode, b: Inode)
    requires Reached(fs, root, a) && Reached(fs, root, b) && a.IsDir() && b.IsDir() && a.number == b.number
    requires DirListing(fs, a) != DirListing(fs, b)
    ensures !OwnNumbers(fs, root)
  {
    hide DirListing, Reached;
  }
}
