/// The order and the spelling of what the recursive listing of src/cli/squashfs/fs.rs prints.
module WalkOrder {
  import opened Bytes
  import opened Image
  import opened Inode
  import opened FileData
  import opened Paths
  import opened Walk
  import Listings = Dir

  // ----- siblings come in name order -----

  /// Two lines of one directory: of one depth, with nothing shallower between them.
  predicate Siblings(lines: seq<Line>, i: nat, j: nat) {
    i < j < |lines| && lines[i].depth == lines[j].depth && forall k :: i < k < j ==> lines[k].depth >= lines[i].depth
  }

  predicate IsName(name: seq<byte>) { name != [] && 0x2F !in name }

  /// The lines of two entries of one directory, the first name not after the second.
  ghost predicate InOrder(a: Line, b: Line) {
    exists parent, x, y ::
      a.path == Join(parent, x) && b.path == Join(parent, y) && IsName(x) && IsName(y) && NameLe(x, y)
  }

  ghost predicate Ordered(lines: seq<Line>) {
    forall i: nat, j: nat :: Siblings(lines, i, j) ==> InOrder(lines[i], lines[j])
  }

  predicate Deeper(lines: seq<Line>, depth: nat) { forall line :: line in lines ==> line.depth >= depth }

  /// The lines at the top depth are entries of the directory at a path.
  ghost predicate TopLines(lines: seq<Line>, path: seq<byte>, depth: nat, es: seq<DirEntry>) {
    forall line :: line in lines && line.depth == depth ==> exists e :: e in es && line.path == Join(path, e.name)
  }

  predicate Named(es: seq<DirEntry>) { forall e :: e in es ==> IsName(e.name) }

  lemma ListingNamed(fs: Filesystem, node: Inode)
    requires SortedListing(fs, node).Ok?
    ensures Named(SortedListing(fs, node).value) && OrderedByName(SortedListing(fs, node).value)
  {
    hide DirListing, NameLe, SortByName;
    var es := DirListing(fs, node).value;
    SortIsStable(es, []);
    forall e | e in SortByName(es) ensures IsName(e.name) {
      SortKeeps(es, e);
      var k :| 0 <= k < |es| && es[k] == e;
      assert Listings.LegalName(es[k].name);
    }
  }

  lemma LeadOrdered(line: Line, below: seq<Line>)
    requires Ordered(below) && Deeper(below, line.depth + 1)
    ensures Ordered([line] + below)
  {
    hide InOrder;
    var lines := [line] + below;
    assert lines[1..] == below;
    forall i: nat, j: nat | Siblings(lines, i, j) ensures InOrder(lines[i], lines[j]) {
      Below(lines, line.depth, j);
      if i > 0 {
        assert Siblings(below, i - 1, j - 1) by {
          forall k | i - 1 < k < j - 1 ensures below[k].depth >= below[i - 1].depth {
            assert lines[k + 1] == below[k];
          }
        }
      }
    }
  }

  lemma Below(lines: seq<Line>, depth: nat, i: nat)
    requires lines != [] && Deeper(lines[1..], depth + 1)
    ensures 0 < i < |lines| ==> lines[i].depth > depth
  {
    if 0 < i < |lines| {
      assert lines[1..][i - 1] == lines[i] && lines[i] in lines[1..];
    }
  }

  /// What one entry adds, then the rest of its directory.
  lemma ThenOrdered(first: seq<Line>, rest: seq<Line>, path: seq<byte>, depth: nat, es: seq<DirEntry>)
    requires es != [] && OrderedByName(es) && Named(es) && Ordered(first) && Ordered(rest)
    requires first != [] && first[0].depth == depth && first[0].path == Join(path, es[0].name)
    requires Deeper(first[1..], depth + 1)
    requires Deeper(rest, depth) && TopLines(rest, path, depth, es[1..]) && (rest != [] ==> rest[0].depth == depth)
    ensures Ordered(first + rest)
  {
    hide InOrder, NameLe, OrderedByName, TopLines, Deeper, Named;
    var lines, n := first + rest, |first|;
    forall i: nat, j: nat | Siblings(lines, i, j) ensures InOrder(lines[i], lines[j]) {
      if j < n {
        assert Siblings(first, i, j) by {
          forall k | i < k < j ensures first[k].depth >= first[i].depth {
            assert lines[k] == first[k];
          }
        }
      } else if i >= n {
        assert Siblings(rest, i - n, j - n) by {
          forall k | i - n < k < j - n ensures rest[k].depth >= rest[i - n].depth {
            assert lines[k + n] == rest[k];
          }
        }
      } else {
        assert lines[i] == first[i] && lines[j] == rest[j - n] && lines[n] == rest[0];
        AcrossOrdered(first, rest, path, depth, es, i, j - n);
      }
    }
  }

  lemma AcrossOrdered(first: seq<Line>, rest: seq<Line>, path: seq<byte>, depth: nat, es: seq<DirEntry>, i: nat,
      j: nat)
    requires es != [] && OrderedByName(es) && Named(es) && i < |first| && j < |rest|
    requires first[0].depth == depth && first[0].path == Join(path, es[0].name) && Deeper(first[1..], depth + 1)
    requires TopLines(rest, path, depth, es[1..]) && rest[0].depth == depth
    requires first[i].depth == rest[j].depth <= rest[0].depth
    ensures InOrder(first[i], rest[j])
  {
    hide InOrder, NameLe, OrderedByName, Join;
    Below(first, depth, i);
    assert rest[j] in rest && rest[j].depth == depth;
    var e :| e in es[1..] && rest[j].path == Join(path, e.name);
    LaterName(es, e);
    Brothers(first[i], rest[j], path, es[0].name, e.name);
  }

  lemma LaterName(es: seq<DirEntry>, e: DirEntry)
    requires es != [] && OrderedByName(es) && Named(es) && e in es[1..]
    ensures NameLe(es[0].name, e.name) && IsName(es[0].name) && IsName(e.name)
  {
    hide NameLe;
    var k :| 0 <= k < |es[1..]| && es[1..][k] == e;
    assert es[k + 1] == e && es[0] in es;
  }

  lemma Brothers(a: Line, b: Line, parent: seq<byte>, x: seq<byte>, y: seq<byte>)
    requires a.path == Join(parent, x) && b.path == Join(parent, y) && IsName(x) && IsName(y) && NameLe(x, y)
    ensures InOrder(a, b)
  {
  }

  lemma {:induction false} EnteredOrdered(fs: Filesystem, full: seq<byte>, depth: nat, i: Inode, visited: set<nat>)
    requires i.number < 0x1_0000_0000
    ensures var lines := Entered(fs, full, depth, i, visited).lines;
            && lines != [] && lines[0].depth == depth && lines[0].path == full
            && Deeper(lines[1..], depth + 1) && Ordered(lines)
    decreases Unvisited(visited), 0, 0
  {
    hide Entries, SortedListing, Ordered, OrderedByName;
    var line := Line(full, depth, i, i.IsDir() && i.number in visited);
    NoneOrdered();
    LeadOrdered(line, []);
    assert [line] + [] == [line];
    if line.Expanded() && SortedListing(fs, i).Ok? {
      var seen := visited + {i.number};
      VisitShrinks(visited, i.number, seen);
      var next := SortedListing(fs, i).value;
      ListingNamed(fs, i);
      EntriesOrdered(fs, full, depth, next, seen);
      LeadOrdered(line, Entries(fs, full, depth, next, seen).lines);
    }
  }

  lemma NoneOrdered()
    ensures Ordered([])
  {
  }

  lemma {:induction false} EntriesOrdered(fs: Filesystem, path: seq<byte>, depth: nat, es: seq<DirEntry>,
      visited: set<nat>)
    requires OrderedByName(es) && Named(es)
    ensures var lines := Entries(fs, path, depth, es, visited).lines;
            && Ordered(lines) && Deeper(lines, depth + 1) && TopLines(lines, path, depth + 1, es)
            && (lines != [] ==> lines[0].depth == depth + 1)
    decreases Unvisited(visited), 1, |es|
  {
    hide Join, InodeAt, Entered, Ordered, NameLe;
    NoneOrdered();
    if es != [] && InodeAt(fs.img, fs.sb, es[0].inodeRef).Ok? {
      NumberFits(fs.img, fs.sb, es[0].inodeRef);
      var i := InodeAt(fs.img, fs.sb, es[0].inodeRef).value;
      var full := Join(path, es[0].name);
      var first := Entered(fs, full, depth + 1, i, visited);
      EnteredOrdered(fs, full, depth + 1, i, visited);
      assert first.lines == [first.lines[0]] + first.lines[1..] && es[0] in es;
      if first.stop.None? {
        MoreVisited(visited, first.visited);
        EntriesOrdered(fs, path, depth, es[1..], first.visited);
        ThenOrdered(first.lines, Entries(fs, path, depth, es[1..], first.visited).lines, path, depth + 1, es);
      }
    }
  }

  /// The lines of one directory come out in dictionary order of their names, under any
  /// bounds.
  lemma SiblingsInOrder(fs: Filesystem, full: seq<byte>, root: Inode, limit: nat, maxDepth: nat)
    ensures Ordered(Bounded(WalkFrom(fs, full, root), 0, limit, maxDepth).lines)
  {
    hide Entries, SortedListing, OrderedByName, Bounded, InOrder;
    var w := WalkFrom(fs, full, root);
    if !root.IsDir() {
      assert |w.lines| == 1;
    } else if SortedListing(fs, root).Ok? {
      ListingNamed(fs, root);
      EntriesOrdered(fs, full, 0, SortedListing(fs, root).value, {root.number});
    }
    BoundedIsPrefix(w, 0, limit, maxDepth);
    var lines := Bounded(w, 0, limit, maxDepth).lines;
    forall i: nat, j: nat | Siblings(lines, i, j) ensures InOrder(lines[i], lines[j]) {
      assert Siblings(w.lines, i, j);
    }
  }

  // ----- a start that is no directory -----

  /// A file lists as exactly one line, itself at depth 0, unless no line may be listed.
  lemma FileListsItself(fs: Filesystem, path: seq<byte>, node: Inode, limit: nat, maxDepth: nat)
    requires !node.IsDir()
    ensures Bounded(WalkFrom(fs, Shown(path), node), 0, limit, maxDepth)
            == if limit == 0 then Report([], LimitReached(Shown(path)))
               else Report([Line(Shown(path), 0, node, false)], Done)
  {
    var line := Line(Shown(path), 0, node, false);
    var none := Walked([], {}, None);
    assert Walked([line], {}, None).(lines := [line][1..]) == none;
    assert Bounded(none, 1, limit, maxDepth) == Report([], Done);
    assert [line] + [] == [line];
  }

  // ----- how paths are spelled -----

  /// A slash in front, none at the end but the root's own, and never two in a row.
  predicate Normal(path: seq<byte>) {
    && path != [] && path[0] == 0x2F && (|path| > 1 ==> path[|path| - 1] != 0x2F)
    && forall k :: 0 <= k < |path| - 1 ==> path[k] != 0x2F || path[k + 1] != 0x2F
  }

  /// A name goes under its directory behind one slash.
  lemma JoinSpelled(parent: seq<byte>, name: seq<byte>)
    requires Normal(parent) && IsName(name)
    ensures Join(parent, name) == (if parent == [0x2F] then parent else parent + [0x2F]) + name
    ensures Normal(Join(parent, name))
  {
    assert name[0] in name && name[|name| - 1] in name;
    forall k | 0 <= k < |name| ensures name[k] != 0x2F {
      assert name[k] in name;
    }
  }

  lemma {:induction false} CanonicalNormal(names: seq<seq<byte>>)
    requires names != [] && forall k :: 0 <= k < |names| ==> IsName(names[k])
    ensures Normal(Canonical(names))
  {
    var name, rest := names[0], Canonical(names[1..]);
    assert name[0] in name && name[|name| - 1] in name;
    forall k | 0 <= k < |name| ensures name[k] != 0x2F {
      assert name[k] in name;
    }
    if names[1..] == [] {
      assert Canonical(names) == [0x2F] + name;
    } else {
      CanonicalNormal(names[1..]);
      assert Canonical(names) == [0x2F] + name + rest;
    }
  }

  /// The path shown for a start is normal, however it was spelled.
  lemma ShownNormal(path: seq<byte>)
    ensures Normal(Shown(path))
  {
    hide Canonical, Normal;
    var names := Components(path);
    if names == [] {
      RootNormal();
    } else {
      forall k | 0 <= k < |names| ensures IsName(names[k]) {
        NonEmptyKeeps(Split(path), names[k]);
        var j :| 0 <= j < |Split(path)| && Split(path)[j] == names[k];
        PiecesHaveNoSlash(path, j);
      }
      CanonicalNormal(names);
    }
  }

  lemma RootNormal()
    ensures Normal([0x2F])
  {
  }

  predicate AllNormal(lines: seq<Line>) { forall line :: line in lines ==> Normal(line.path) }

  lemma {:induction false} EnteredNormal(fs: Filesystem, full: seq<byte>, depth: nat, i: Inode, visited: set<nat>)
    requires i.number < 0x1_0000_0000 && Normal(full)
    ensures AllNormal(Entered(fs, full, depth, i, visited).lines)
    decreases Unvisited(visited), 0, 0
  {
    hide Entries, SortedListing, Normal, OrderedByName;
    var line := Line(full, depth, i, i.IsDir() && i.number in visited);
    if line.Expanded() && SortedListing(fs, i).Ok? {
      var seen := visited + {i.number};
      VisitShrinks(visited, i.number, seen);
      ListingNamed(fs, i);
      EntriesNormal(fs, full, depth, SortedListing(fs, i).value, seen);
    }
  }

  lemma {:induction false} EntriesNormal(fs: Filesystem, path: seq<byte>, depth: nat, es: seq<DirEntry>,
      visited: set<nat>)
    requires Named(es) && Normal(path)
    ensures AllNormal(Entries(fs, path, depth, es, visited).lines)
    decreases Unvisited(visited), 1, |es|
  {
    hide Join, InodeAt, Entered, Normal;
    if es != [] && InodeAt(fs.img, fs.sb, es[0].inodeRef).Ok? {
      NumberFits(fs.img, fs.sb, es[0].inodeRef);
      var i := InodeAt(fs.img, fs.sb, es[0].inodeRef).value;
      var full := Join(path, es[0].name);
      JoinSpelled(path, es[0].name);
      var first := Entered(fs, full, depth + 1, i, visited);
      EnteredNormal(fs, full, depth + 1, i, visited);
      if first.stop.None? {
        MoreVisited(visited, first.visited);
        EntriesNormal(fs, path, depth, es[1..], first.visited);
      }
    }
  }

  /// Every path a recursive listing prints is normal, under any bounds and however its
  /// start was spelled.
  lemma PrintedPathsNormal(fs: Filesystem, path: seq<byte>, root: Inode, limit: nat, maxDepth: nat)
    ensures AllNormal(Bounded(WalkFrom(fs, Shown(path), root), 0, limit, maxDepth).lines)
  {
    hide Entries, SortedListing, OrderedByName, Bounded, Normal, Shown;
    var w := WalkFrom(fs, Shown(path), root);
    ShownNormal(path);
    if root.IsDir() && SortedListing(fs, root).Ok? {
      ListingNamed(fs, root);
      EntriesNormal(fs, Shown(path), 0, SortedListing(fs, root).value, {root.number});
    }
    BoundedIsPrefix(w, 0, limit, maxDepth);
  }
}
