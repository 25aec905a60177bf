/// The recursive listing of src/cli/squashfs/fs.rs: a walk with its own stack over a
/// directory graph that may have cycles, stopped by two bounds.
module Walk {
  import opened Bytes
  import opened Image
  import opened Metadata
  import opened Inode
  import opened FileData
  import opened Paths

  // ----- the order siblings are listed in -----

  /// Byte strings in dictionary order.
  predicate NameLe(a: seq<byte>, b: seq<byte>) {
    a == [] || (b != [] && (a[0] < b[0] || (a[0] == b[0] && NameLe(a[1..], b[1..]))))
  }

  /// Before the first entry that is not smaller.
  function InsertByName(e: DirEntry, es: seq<DirEntry>): (r: seq<DirEntry>) {
    if es == [] || NameLe(e.name, es[0].name) then [e] + es else [es[0]] + InsertByName(e, es[1..])
  }

  /// The stable sort by name.
  function SortByName(es: seq<DirEntry>): (r: seq<DirEntry>) {
    if es == [] then [] else InsertByName(es[0], SortByName(es[1..]))
  }

  predicate OrderedByName(es: seq<DirEntry>) {
    forall i, j :: 0 <= i < j < |es| ==> NameLe(es[i].name, es[j].name)
  }

  /// The entries with one name, in the order they come.
  function Namesakes(es: seq<DirEntry>, name: seq<byte>): seq<DirEntry> {
    if es == [] then [] else (if es[0].name == name then [es[0]] else []) + Namesakes(es[1..], name)
  }

  lemma {:induction false} NameTotal(a: seq<byte>, b: seq<byte>)
    ensures NameLe(a, b) || NameLe(b, a)
    ensures NameLe(a, b) && NameLe(b, a) ==> a == b
  {
    if a != [] && b != [] && a[0] == b[0] {
      NameTotal(a[1..], b[1..]);
      assert a == [a[0]] + a[1..] && b == [b[0]] + b[1..];
    }
  }

  lemma {:induction false} NameTransitive(a: seq<byte>, b: seq<byte>, c: seq<byte>)
    requires NameLe(a, b) && NameLe(b, c)
    ensures NameLe(a, c)
  {
    if a != [] && a[0] == b[0] && b[0] == c[0] {
      NameTransitive(a[1..], b[1..], c[1..]);
    }
  }

  /// Dictionary order: a prefix comes before what it begins, and otherwise the first byte
  /// that differs decides.
  lemma {:induction false} NameLeMeans(a: seq<byte>, b: seq<byte>)
    ensures NameLe(a, b) <==> a <= b || exists k :: 0 <= k < |a| && k < |b| && a[..k] == b[..k] && a[k] < b[k]
  {
    if a != [] && b != [] {
      if a[0] < b[0] {
        assert a[..0] == b[..0];
      } else if a[0] == b[0] {
        NameLeMeans(a[1..], b[1..]);
        SameFirst(a, b);
      }
    }
  }

  lemma SameFirst(a: seq<byte>, b: seq<byte>)
    requires a != [] && b != [] && a[0] == b[0]
    ensures a[1..] <= b[1..] <==> a <= b
    ensures (exists k :: 0 <= k < |a[1..]| && k < |b[1..]| && a[1..][..k] == b[1..][..k] && a[1..][k] < b[1..][k])
            <==> exists k :: 0 <= k < |a| && k < |b| && a[..k] == b[..k] && a[k] < b[k]
  {
    var c, d := a[1..], b[1..];
    assert a == [a[0]] + c && b == [b[0]] + d;
    if k :| 0 <= k < |c| && k < |d| && c[..k] == d[..k] && c[k] < d[k] {
      assert a[..k + 1] == [a[0]] + c[..k] && b[..k + 1] == [b[0]] + d[..k];
    }
    if k :| 0 <= k < |a| && k < |b| && a[..k] == b[..k] && a[k] < b[k] {
      assert k > 0 && c[..k - 1] == a[..k][1..] && d[..k - 1] == b[..k][1..];
      assert c[k - 1] < d[k - 1];
    }
  }

  lemma {:induction false} InsertAddsOne(e: DirEntry, es: seq<DirEntry>, x: DirEntry)
    ensures x in InsertByName(e, es) ==> x == e || x in es
  {
    if es != [] && !NameLe(e.name, es[0].name) {
      InsertAddsOne(e, es[1..], x);
    }
  }

  lemma {:induction false} InsertKeepsOrder(e: DirEntry, es: seq<DirEntry>)
    requires OrderedByName(es)
    ensures OrderedByName(InsertByName(e, es))
  {
    hide NameLe;
    if es == [] || NameLe(e.name, es[0].name) {
      forall j | 0 < j < |es| ensures NameLe(e.name, es[j].name) {
        NameTransitive(e.name, es[0].name, es[j].name);
      }
    } else {
      NameTotal(e.name, es[0].name);
      var rest := InsertByName(e, es[1..]);
      InsertKeepsOrder(e, es[1..]);
      forall j | 0 <= j < |rest| ensures NameLe(es[0].name, rest[j].name) {
        InsertAddsOne(e, es[1..], rest[j]);
        if rest[j] in es[1..] {
          var k :| 0 <= k < |es[1..]| && es[1..][k] == rest[j];
          assert es[k + 1] == rest[j];
        }
      }
    }
  }

  lemma {:induction false} InsertKeepsAll(e: DirEntry, es: seq<DirEntry>)
    ensures multiset(InsertByName(e, es)) == multiset([e]) + multiset(es)
  {
    if es != [] && !NameLe(e.name, es[0].name) {
      InsertKeepsAll(e, es[1..]);
      assert es == [es[0]] + es[1..];
    }
  }

  lemma {:induction false} InsertIsStable(e: DirEntry, es: seq<DirEntry>, name: seq<byte>)
    ensures Namesakes(InsertByName(e, es), name) == Namesakes([e] + es, name)
  {
    assert ([e] + es)[1..] == es;
    if es != [] && !NameLe(e.name, es[0].name) {
      InsertIsStable(e, es[1..], name);
      assert ([e] + es[1..])[1..] == es[1..];
      NameTotal(e.name, es[0].name);
    }
  }

  /// Sorting puts names in order, keeps every entry, and leaves entries of one name as
  /// they stood.
  lemma {:induction false} SortIsStable(es: seq<DirEntry>, name: seq<byte>)
    ensures OrderedByName(SortByName(es)) && multiset(SortByName(es)) == multiset(es)
    ensures Namesakes(SortByName(es), name) == Namesakes(es, name)
  {
    hide NameLe, InsertByName;
    if es != [] {
      var sorted := SortByName(es[1..]);
      SortIsStable(es[1..], name);
      InsertKeepsOrder(es[0], sorted);
      InsertKeepsAll(es[0], sorted);
      InsertIsStable(es[0], sorted, name);
      assert ([es[0]] + sorted)[1..] == sorted;
      assert es == [es[0]] + es[1..];
    }
  }

  lemma SortKeeps(es: seq<DirEntry>, e: DirEntry)
    ensures e in SortByName(es) <==> e in es
  {
    SortIsStable(es, []);
    assert e in SortByName(es) <==> e in multiset(SortByName(es));
    assert e in es <==> e in multiset(es);
  }

  // ----- what a walk lists -----

  /// A listed inode: the path it was reached by and whether it is a directory that had
  /// been listed before.
  datatype Line = Line(path: seq<byte>, depth: nat, inode: Inode, revisited: bool) {
    /// A directory whose own entries follow.
    predicate Expanded() { inode.IsDir() && !revisited }
  }

  /// What a walk could not get past.
  datatype Stop =
    | CannotRead(path: seq<byte>, depth: nat, error: Error)
    | CannotList(path: seq<byte>, error: Error)

  datatype Walked = Walked(lines: seq<Line>, visited: set<nat>, stop: Option<Stop>)

  function Join(parent: seq<byte>, name: seq<byte>): seq<byte> {
    if parent != [] && parent[|parent| - 1] == SLASH then parent + name else Under(parent, name)
  }

  /// A directory's entries, sorted.
  function SortedListing(fs: Filesystem, node: Inode): (r: Result<seq<DirEntry>, Error>) {
    match DirListing(fs, node)
    case Err(e) => Err(e)
    case Ok(es) => Ok(SortByName(es))
  }

  /// The directory numbers still to be met.
  function Unvisited(visited: set<nat>): set<nat> { set n: nat | n < 0x1_0000_0000 && n !in visited }

  lemma VisitShrinks(visited: set<nat>, n: nat, later: set<nat>)
    requires n < 0x1_0000_0000 && n !in visited && visited + {n} <= later
    ensures Unvisited(later) < Unvisited(visited)
  {
    assert n in Unvisited(visited) && n !in Unvisited(later);
  }

  function Then(first: Walked, rest: Walked): Walked { Walked(first.lines + rest.lines, rest.visited, rest.stop) }

  /// A line, and what its directory adds if this is the first meeting with it.
  function Entered(fs: Filesystem, full: seq<byte>, depth: nat, i: Inode, visited: set<nat>): (w: Walked)
    requires i.number < 0x1_0000_0000
    ensures visited <= w.visited
    decreases Unvisited(visited), 0, 0
  {
    var line := Line(full, depth, i, i.IsDir() && i.number in visited);
    if line.Expanded() then
      var seen := visited + {i.number};
      match SortedListing(fs, i)
      case Err(e) => Walked([line], seen, Some(CannotList(full, e)))
      case Ok(next) =>
        VisitShrinks(visited, i.number, seen);
        var below := Entries(fs, full, depth, next, seen);
        Walked([line] + below.lines, below.visited, below.stop)
    else Walked([line], visited, None)
  }

  /// The recursive preorder below a path, the visited set threaded through it.
  function Entries(fs: Filesystem, path: seq<byte>, depth: nat, es: seq<DirEntry>, visited: set<nat>): (w: Walked)
    ensures visited <= w.visited
    decreases Unvisited(visited), 1, |es|
  {
    if es == [] then Walked([], visited, None)
    else
      var full := Join(path, es[0].name);
      match InodeAt(fs.img, fs.sb, es[0].inodeRef)
      case Err(e) => Walked([], visited, Some(CannotRead(full, depth + 1, e)))
      case Ok(i) =>
        NumberFits(fs.img, fs.sb, es[0].inodeRef);
        var first := Entered(fs, full, depth + 1, i, visited);
        if first.stop.Some? then first
        else
          MoreVisited(visited, first.visited);
          Then(first, Entries(fs, path, depth, es[1..], first.visited))
  }

  lemma MoreVisited(visited: set<nat>, later: set<nat>)
    requires visited <= later
    ensures Unvisited(later) <= Unvisited(visited)
  {
  }

  // ----- each directory is expanded once -----

  /// The directory numbers met once a line has been listed.
  function Seen(visited: set<nat>, line: Line): set<nat> {
    if line.inode.IsDir() then visited + {line.inode.number} else visited
  }

  function SeenAfter(visited: set<nat>, lines: seq<Line>): set<nat>
    decreases |lines|
  {
    if lines == [] then visited else SeenAfter(Seen(visited, lines[0]), lines[1..])
  }

  /// Whether each line's mark says what it should: a directory is revisited when its number
  /// was in the set at the start or on an earlier line.
  predicate Marked(lines: seq<Line>, visited: set<nat>)
    decreases |lines|
  {
    lines != [] ==>
      && lines[0].revisited == (lines[0].inode.IsDir() && lines[0].inode.number in visited)
      && Marked(lines[1..], Seen(visited, lines[0]))
  }

  lemma {:induction false} MarkedJoined(a: seq<Line>, b: seq<Line>, visited: set<nat>)
    requires Marked(a, visited) && Marked(b, SeenAfter(visited, a))
    ensures Marked(a + b, visited) && SeenAfter(visited, a + b) == SeenAfter(SeenAfter(visited, a), b)
    decreases |a|
  {
    hide Seen;
    if a == [] {
      assert a + b == b;
    } else {
      MarkedJoined(a[1..], b, Seen(visited, a[0]));
      assert (a + b)[1..] == a[1..] + b;
    }
  }

  lemma {:induction false} EnteredMarked(fs: Filesystem, full: seq<byte>, depth: nat, i: Inode, visited: set<nat>)
    requires i.number < 0x1_0000_0000
    ensures var w := Entered(fs, full, depth, i, visited);
            Marked(w.lines, visited) && w.visited == SeenAfter(visited, w.lines)
    decreases Unvisited(visited), 0, 0
  {
    hide SortedListing, Entries;
    var line := Line(full, depth, i, i.IsDir() && i.number in visited);
    assert [line][1..] == [];
    assert SeenAfter(visited, [line]) == SeenAfter(Seen(visited, line), []);
    if line.Expanded() && SortedListing(fs, i).Ok? {
      var seen := visited + {i.number};
      VisitShrinks(visited, i.number, seen);
      EntriesMarked(fs, full, depth, SortedListing(fs, i).value, seen);
      var below := Entries(fs, full, depth, SortedListing(fs, i).value, seen).lines;
      MarkedJoined([line], below, visited);
    }
  }

  /// A walk marks its lines rightly, and ends with exactly the directories it listed added.
  lemma {:induction false} EntriesMarked(fs: Filesystem, path: seq<byte>, depth: nat, es: seq<DirEntry>,
      visited: set<nat>)
    ensures var w := Entries(fs, path, depth, es, visited);
            Marked(w.lines, visited) && w.visited == SeenAfter(visited, w.lines)
    decreases Unvisited(visited), 1, |es|
  {
    hide Join, InodeAt, Entered;
    if es != [] && InodeAt(fs.img, fs.sb, es[0].inodeRef).Ok? {
      NumberFits(fs.img, fs.sb, es[0].inodeRef);
      var i := InodeAt(fs.img, fs.sb, es[0].inodeRef).value;
      var first := Entered(fs, Join(path, es[0].name), depth + 1, i, visited);
      EnteredMarked(fs, Join(path, es[0].name), depth + 1, i, visited);
      if first.stop.None? {
        MoreVisited(visited, first.visited);
        EntriesMarked(fs, path, depth, es[1..], first.visited);
        var rest := Entries(fs, path, depth, es[1..], first.visited).lines;
        MarkedJoined(first.lines, rest, visited);
      }
    }
  }

  /// The set after some lines holds what it held and the directories on them.
  lemma {:induction false} SeenAfterMeans(visited: set<nat>, lines: seq<Line>, n: nat)
    ensures n in SeenAfter(visited, lines) <==>
            n in visited || exists line :: line in lines && line.inode.IsDir() && line.inode.number == n
    decreases |lines|
  {
    if lines != [] {
      SeenAfterMeans(Seen(visited, lines[0]), lines[1..], n);
      assert lines == [lines[0]] + lines[1..];
    }
  }

  lemma {:induction false} MarkedMeans(lines: seq<Line>, visited: set<nat>, k: nat)
    requires Marked(lines, visited) && k < |lines|
    ensures lines[k].revisited <==> lines[k].inode.IsDir() && lines[k].inode.number in SeenAfter(visited, lines[..k])
    decreases k
  {
    hide Seen;
    if k > 0 {
      MarkedMeans(lines[1..], Seen(visited, lines[0]), k - 1);
      assert lines[..k][1..] == lines[1..][..k - 1];
    }
  }

  /// No directory number is expanded twice, nor the number of one already visited.
  lemma ExpandedOnce(fs: Filesystem, path: seq<byte>, depth: nat, es: seq<DirEntry>, visited: set<nat>, j: nat, k: nat)
    requires var lines := Entries(fs, path, depth, es, visited).lines;
             j < k < |lines| && lines[j].Expanded() && lines[k].Expanded()
    ensures var lines := Entries(fs, path, depth, es, visited).lines;
            lines[j].inode.number != lines[k].inode.number && lines[k].inode.number !in visited
  {
    hide Entries, Marked;
    var lines := Entries(fs, path, depth, es, visited).lines;
    EntriesMarked(fs, path, depth, es, visited);
    MarkedMeans(lines, visited, k);
    SeenAfterMeans(visited, lines[..k], lines[k].inode.number);
    assert lines[..k][j] == lines[j] && lines[j] in lines[..k];
  }

  // ----- nothing below an expanded directory is left out -----

  /// A line for an entry of the directory listed at a path.
  predicate IsChild(fs: Filesystem, line: Line, path: seq<byte>, depth: nat, e: DirEntry) {
    line.path == Join(path, e.name) && line.depth == depth + 1 && InodeAt(fs.img, fs.sb, e.inodeRef) == Ok(line.inode)
  }

  ghost predicate HasChild(fs: Filesystem, lines: seq<Line>, path: seq<byte>, depth: nat, e: DirEntry) {
    exists line :: line in lines && IsChild(fs, line, path, depth, e)
  }

  /// Every entry of a directory is listed under its path.
  ghost predicate HasChildren(fs: Filesystem, lines: seq<Line>, path: seq<byte>, depth: nat, es: seq<DirEntry>) {
    forall e :: e in es ==> HasChild(fs, lines, path, depth, e)
  }

  ghost predicate Whole(fs: Filesystem, lines: seq<Line>, line: Line) {
    && SortedListing(fs, line.inode).Ok?
    && HasChildren(fs, lines, line.path, line.depth, SortedListing(fs, line.inode).value)
  }

  /// The expanded directories of `part` have all their entries in `lines`.
  ghost predicate AllWhole(fs: Filesystem, part: seq<Line>, lines: seq<Line>) {
    forall line :: line in part && line.Expanded() ==> Whole(fs, lines, line)
  }

  lemma MoreLines(fs: Filesystem, lines: seq<Line>, more: seq<Line>, path: seq<byte>, depth: nat, es: seq<DirEntry>)
    requires HasChildren(fs, lines, path, depth, es) && forall line :: line in lines ==> line in more
    ensures HasChildren(fs, more, path, depth, es)
  {
    hide IsChild;
    forall e | e in es ensures HasChild(fs, more, path, depth, e) {
      assert HasChild(fs, lines, path, depth, e);
    }
  }

  lemma StillWhole(fs: Filesystem, part: seq<Line>, lines: seq<Line>, more: seq<Line>)
    requires AllWhole(fs, part, lines) && forall line :: line in lines ==> line in more
    ensures AllWhole(fs, part, more)
  {
    hide HasChildren, SortedListing;
    forall line | line in part && line.Expanded() ensures Whole(fs, more, line) {
      assert Whole(fs, lines, line);
      MoreLines(fs, lines, more, line.path, line.depth, SortedListing(fs, line.inode).value);
    }
  }

  lemma WholeJoined(fs: Filesystem, a: seq<Line>, b: seq<Line>)
    requires AllWhole(fs, a, a + b) && AllWhole(fs, b, b)
    ensures AllWhole(fs, a + b, a + b)
  {
    hide Whole;
    StillWhole(fs, b, b, a + b);
  }

  lemma {:induction false} EnteredWhole(fs: Filesystem, full: seq<byte>, depth: nat, i: Inode, visited: set<nat>)
    requires i.number < 0x1_0000_0000 && Entered(fs, full, depth, i, visited).stop.None?
    ensures var lines := Entered(fs, full, depth, i, visited).lines;
            AllWhole(fs, lines, lines) && Line(full, depth, i, i.IsDir() && i.number in visited) in lines
    decreases Unvisited(visited), 0, 0
  {
    hide SortedListing, Entries, HasChildren;
    var line := Line(full, depth, i, i.IsDir() && i.number in visited);
    if line.Expanded() {
      var seen := visited + {i.number};
      VisitShrinks(visited, i.number, seen);
      var next := SortedListing(fs, i).value;
      var below := Entries(fs, full, depth, next, seen).lines;
      EntriesWhole(fs, full, depth, next, seen);
      MoreLines(fs, below, [line] + below, full, depth, next);
      WholeJoined(fs, [line], below);
    }
  }

  /// A walk that is not stopped lists every entry of every directory it expands, and of
  /// the one it started with.
  lemma {:induction false} EntriesWhole(fs: Filesystem, path: seq<byte>, depth: nat, es: seq<DirEntry>,
      visited: set<nat>)
    requires Entries(fs, path, depth, es, visited).stop.None?
    ensures var lines := Entries(fs, path, depth, es, visited).lines;
            AllWhole(fs, lines, lines) && HasChildren(fs, lines, path, depth, es)
    decreases Unvisited(visited), 1, |es|
  {
    hide Join, InodeAt, Entered, Whole;
    if es != [] {
      NumberFits(fs.img, fs.sb, es[0].inodeRef);
      var i := InodeAt(fs.img, fs.sb, es[0].inodeRef).value;
      var full := Join(path, es[0].name);
      var first := Entered(fs, full, depth + 1, i, visited);
      EnteredWhole(fs, full, depth + 1, i, visited);
      MoreVisited(visited, first.visited);
      EntriesWhole(fs, path, depth, es[1..], first.visited);
      var rest := Entries(fs, path, depth, es[1..], first.visited).lines;
      StillWhole(fs, first.lines, first.lines, first.lines + rest);
      WholeJoined(fs, first.lines, rest);
      MoreLines(fs, rest, first.lines + rest, path, depth, es[1..]);
      var line := Line(full, depth + 1, i, i.IsDir() && i.number in visited);
      assert line in first.lines + rest && IsChild(fs, line, path, depth, es[0]);
      FirstAndRest(fs, first.lines + rest, path, depth, es);
    }
  }

  lemma FirstAndRest(fs: Filesystem, lines: seq<Line>, path: seq<byte>, depth: nat, es: seq<DirEntry>)
    requires es != [] && HasChild(fs, lines, path, depth, es[0]) && HasChildren(fs, lines, path, depth, es[1..])
    ensures HasChildren(fs, lines, path, depth, es)
  {
    hide HasChild;
    assert es == [es[0]] + es[1..];
  }

  // ----- every path listed leads to what was listed -----

  predicate Distinct(es: seq<DirEntry>) { forall i, j :: 0 <= i < j < |es| ==> es[i].name != es[j].name }

  /// No directory that a path reaches lists a name twice.
  ghost predicate NamesUnique(fs: Filesystem) { forall path :: UniqueAt(fs, path) }

  predicate UniqueAt(fs: Filesystem, path: seq<byte>) {
    Resolve(fs, path).Ok? && DirListing(fs, Resolve(fs, path).value).Ok? ==>
      Distinct(DirListing(fs, Resolve(fs, path).value).value)
  }

  lemma JoinedComponents(path: seq<byte>, name: seq<byte>)
    requires SLASH !in name && name != []
    ensures Components(Join(path, name)) == Components(path) + [name]
  {
    hide Components;
    var one := seq(1, _ => SLASH);
    assert one == [SLASH];
    OneComponent(name);
    if path != [] && path[|path| - 1] == SLASH {
      var p := path[..|path| - 1];
      assert path == p + one + [] && path + name == p + one + name;
      ComponentsJoined(p, 1, name);
      ComponentsJoined(p, 1, []);
      NoComponents();
    } else {
      ComponentsJoined(path, 1, name);
    }
  }

  /// With unique names, joining a listed name to a directory's path leads to its entry.
  lemma JoinResolves(fs: Filesystem, path: seq<byte>, node: Inode, e: DirEntry)
    requires NamesUnique(fs) && Resolve(fs, path) == Ok(node) && DirListing(fs, node).Ok?
        && e in DirListing(fs, node).value
    ensures Resolve(fs, Join(path, e.name)) == InodeAt(fs.img, fs.sb, e.inodeRef)
  {
    hide Components, InodeAt, DirListing, Join, Resolve;
    var es := DirListing(fs, node).value;
    var k :| 0 <= k < |es| && es[k] == e;
    assert UniqueAt(fs, path);
    JoinedComponents(path, e.name);
    ListedNamesResolve(fs, path, node, k);
    SameComponents(fs, Join(path, e.name), Under(path, e.name));
    assert seq(1, _ => SLASH) == [SLASH];
    ComponentsJoined(path, 1, e.name);
    OneComponent(e.name);
  }

  lemma SameComponents(fs: Filesystem, p: seq<byte>, q: seq<byte>)
    ensures Components(p) == Components(q) ==> Resolve(fs, p) == Resolve(fs, q)
  {
  }

  /// A line whose path leads to its inode and has as many components as its depth says.
  predicate Found(fs: Filesystem, line: Line, base: int) {
    Resolve(fs, line.path) == Ok(line.inode) && |Components(line.path)| == base + line.depth
  }

  ghost predicate AllFound(fs: Filesystem, lines: seq<Line>, base: int) {
    forall line :: line in lines ==> Found(fs, line, base)
  }

  lemma {:induction false} EnteredFound(fs: Filesystem, full: seq<byte>, depth: nat, i: Inode, visited: set<nat>,
      base: int)
    requires i.number < 0x1_0000_0000 && NamesUnique(fs) && Found(fs, Line(full, depth, i, false), base)
    ensures AllFound(fs, Entered(fs, full, depth, i, visited).lines, base)
    decreases Unvisited(visited), 0, 0
  {
    hide Entries, DirListing, Components, Resolve, SortByName, NamesUnique;
    var line := Line(full, depth, i, i.IsDir() && i.number in visited);
    if line.Expanded() && SortedListing(fs, i).Ok? {
      var seen := visited + {i.number};
      VisitShrinks(visited, i.number, seen);
      forall e | e in SortedListing(fs, i).value ensures e in DirListing(fs, i).value {
        SortKeeps(DirListing(fs, i).value, e);
      }
      EntriesFound(fs, full, depth, SortedListing(fs, i).value, seen, i, base);
    }
  }

  /// With unique names every line's path resolves to the inode the line is about, and lies
  /// as many components below the start as the line's depth says.
  lemma {:induction false} EntriesFound(fs: Filesystem, path: seq<byte>, depth: nat, es: seq<DirEntry>,
      visited: set<nat>, node: Inode, base: int)
    requires NamesUnique(fs) && Resolve(fs, path) == Ok(node) && DirListing(fs, node).Ok?
    requires |Components(path)| == base + depth && forall e :: e in es ==> e in DirListing(fs, node).value
    ensures AllFound(fs, Entries(fs, path, depth, es, visited).lines, base)
    decreases Unvisited(visited), 1, |es|
  {
    hide Join, InodeAt, Entered, Components, Resolve, DirListing, NamesUnique;
    if es != [] && InodeAt(fs.img, fs.sb, es[0].inodeRef).Ok? {
      NumberFits(fs.img, fs.sb, es[0].inodeRef);
      var i := InodeAt(fs.img, fs.sb, es[0].inodeRef).value;
      var full := Join(path, es[0].name);
      assert es[0] in es;
      JoinResolves(fs, path, node, es[0]);
      JoinedComponents(path, es[0].name);
      var first := Entered(fs, full, depth + 1, i, visited);
      EnteredFound(fs, full, depth + 1, i, visited, base);
      if first.stop.None? {
        MoreVisited(visited, first.visited);
        assert forall e :: e in es[1..] ==> e in es;
        EntriesFound(fs, path, depth, es[1..], first.visited, node, base);
      }
    }
  }

  // ----- the bounds -----

  datatype Outcome =
    | Done
    | LimitReached(path: seq<byte>)
    | DepthReached(path: seq<byte>)
    | Failed(path: seq<byte>, error: Error)

  datatype Report = Report(lines: seq<Line>, outcome: Outcome)

  /// The bound that keeps the k-th line, or an attempt at it, from being made.
  function Stopped(k: nat, depth: nat, path: seq<byte>, limit: nat, maxDepth: nat): Outcome {
    if k >= limit then LimitReached(path) else if depth > maxDepth then DepthReached(path) else Done
  }

  /// A walk cut where a bound first stops it, `k` lines having been listed before.
  function Bounded(w: Walked, k: nat, limit: nat, maxDepth: nat): (r: Report)
    decreases |w.lines|
  {
    if w.lines == [] then
      Report([], match w.stop
                 case None => Done
                 case Some(CannotList(path, e)) => Failed(path, e)
                 case Some(CannotRead(path, depth, e)) =>
                   var stopped := Stopped(k, depth, path, limit, maxDepth);
                   if stopped == Done then Failed(path, e) else stopped)
    else
      var stopped := Stopped(k, w.lines[0].depth, w.lines[0].path, limit, maxDepth);
      if stopped != Done then Report([], stopped)
      else
        var rest := Bounded(w.(lines := w.lines[1..]), k + 1, limit, maxDepth);
        Report([w.lines[0]] + rest.lines, rest.outcome)
  }

  predicate Within(lines: seq<Line>, k: nat, limit: nat, maxDepth: nat) {
    k + |lines| <= limit && forall i :: 0 <= i < |lines| ==> lines[i].depth <= maxDepth
  }

  /// Under any bounds the lines are a prefix of the unbounded walk's that keeps within the
  /// bounds; it is cut only before a line that would not; and the outcome is `Done` exactly
  /// when the unbounded walk was not stopped and is within the bounds as a whole.
  lemma {:induction false} BoundedIsPrefix(w: Walked, k: nat, limit: nat, maxDepth: nat)
    requires k <= limit
    ensures var r := Bounded(w, k, limit, maxDepth);
            && r.lines <= w.lines && Within(r.lines, k, limit, maxDepth)
            && (|r.lines| < |w.lines| ==> k + |r.lines| == limit || w.lines[|r.lines|].depth > maxDepth)
            && (r.outcome == Done <==> w.stop.None? && Within(w.lines, k, limit, maxDepth))
            && (r.outcome == Done ==> r.lines == w.lines)
    decreases |w.lines|
  {
    if w.lines != [] {
      if Stopped(k, w.lines[0].depth, w.lines[0].path, limit, maxDepth) == Done {
        var rest := w.(lines := w.lines[1..]);
        BoundedIsPrefix(rest, k + 1, limit, maxDepth);
        assert w.lines == [w.lines[0]] + rest.lines;
        assert Within(w.lines, k, limit, maxDepth) ==> Within(rest.lines, k + 1, limit, maxDepth) by {
          assert forall i :: 0 <= i < |rest.lines| ==> rest.lines[i] == w.lines[i + 1];
        }
      }
    }
  }

  /// A walk that is cut says by which bound and names the line that it kept from being
  /// listed.
  lemma {:induction false} CutBefore(w: Walked, k: nat, limit: nat, maxDepth: nat)
    requires k <= limit && |Bounded(w, k, limit, maxDepth).lines| < |w.lines|
    ensures var r := Bounded(w, k, limit, maxDepth);
            var next := w.lines[|r.lines|];
            || (k + |r.lines| == limit && r.outcome == LimitReached(next.path))
            || (k + |r.lines| < limit && next.depth > maxDepth && r.outcome == DepthReached(next.path))
    decreases |w.lines|
  {
    if Stopped(k, w.lines[0].depth, w.lines[0].path, limit, maxDepth) == Done {
      CutBefore(w.(lines := w.lines[1..]), k + 1, limit, maxDepth);
    }
  }

  // ----- the walk with its own stack -----

  /// A directory part-way through its entries.
  datatype Frame = Frame(path: seq<byte>, depth: nat, left: seq<DirEntry>)

  /// What a stack of half-listed directories will still list, the last one first.
  function Resume(fs: Filesystem, stack: seq<Frame>, visited: set<nat>): (w: Walked)
    decreases |stack|
  {
    if stack == [] then Walked([], visited, None)
    else
      var top := stack[|stack| - 1];
      var w := Entries(fs, top.path, top.depth, top.left, visited);
      if w.stop.Some? then w else Then(w, Resume(fs, stack[..|stack| - 1], w.visited))
  }

  function Lead(line: Line, w: Walked): Walked { Walked([line] + w.lines, w.visited, w.stop) }

  /// The stack with its last directory's next entry taken.
  function Advanced(stack: seq<Frame>): (r: seq<Frame>)
    requires stack != [] && stack[|stack| - 1].left != []
    ensures |r| == |stack|
  {
    var top := stack[|stack| - 1];
    stack[..|stack| - 1] + [top.(left := top.left[1..])]
  }

  lemma NoEntries(fs: Filesystem, path: seq<byte>, depth: nat, visited: set<nat>)
    ensures Entries(fs, path, depth, [], visited) == Walked([], visited, None)
  {
  }

  lemma EmptyFrame(fs: Filesystem, stack: seq<Frame>, visited: set<nat>)
    requires stack != [] && stack[|stack| - 1].left == []
    ensures Resume(fs, stack, visited) == Resume(fs, stack[..|stack| - 1], visited)
  {
    hide Entries;
    var top := stack[|stack| - 1];
    NoEntries(fs, top.path, top.depth, visited);
    var rest := Resume(fs, stack[..|stack| - 1], visited);
    assert [] + rest.lines == rest.lines;
  }

  lemma Unreadable(fs: Filesystem, stack: seq<Frame>, visited: set<nat>)
    requires stack != [] && stack[|stack| - 1].left != []
    requires InodeAt(fs.img, fs.sb, stack[|stack| - 1].left[0].inodeRef).Err?
    ensures var top := stack[|stack| - 1];
            Resume(fs, stack, visited)
            == var e := InodeAt(fs.img, fs.sb, top.left[0].inodeRef).error;
               Walked([], visited, Some(CannotRead(Join(top.path, top.left[0].name), top.depth + 1, e)))
  {
    hide InodeAt, Join;
  }

  /// The next entry of the last directory, entered.
  lemma NextEntry(fs: Filesystem, stack: seq<Frame>, visited: set<nat>, i: Inode)
    requires stack != [] && stack[|stack| - 1].left != []
    requires InodeAt(fs.img, fs.sb, stack[|stack| - 1].left[0].inodeRef) == Ok(i) && i.number < 0x1_0000_0000
    ensures var top := stack[|stack| - 1];
            var first := Entered(fs, Join(top.path, top.left[0].name), top.depth + 1, i, visited);
            Resume(fs, stack, visited)
            == if first.stop.Some? then first else Then(first, Resume(fs, Advanced(stack), first.visited))
  {
    hide InodeAt, Join, Entered;
    var top := stack[|stack| - 1];
    var first := Entered(fs, Join(top.path, top.left[0].name), top.depth + 1, i, visited);
    if first.stop.None? {
      var more := Entries(fs, top.path, top.depth, top.left[1..], first.visited);
      var rest := Advanced(stack);
      assert rest[|rest| - 1] == top.(left := top.left[1..]) && rest[..|rest| - 1] == stack[..|stack| - 1];
      if more.stop.None? {
        var after := Resume(fs, stack[..|stack| - 1], more.visited);
        assert (first.lines + more.lines) + after.lines == first.lines + (more.lines + after.lines);
      }
    }
  }

  /// Nothing below: a line, then the rest of the stack.
  lemma LeafStep(fs: Filesystem, stack: seq<Frame>, visited: set<nat>, i: Inode)
    requires stack != [] && stack[|stack| - 1].left != []
    requires InodeAt(fs.img, fs.sb, stack[|stack| - 1].left[0].inodeRef) == Ok(i) && i.number < 0x1_0000_0000
    requires i.IsDir() ==> i.number in visited
    ensures var top := stack[|stack| - 1];
            var line := Line(Join(top.path, top.left[0].name), top.depth + 1, i, i.IsDir());
            Resume(fs, stack, visited) == Lead(line, Resume(fs, Advanced(stack), visited))
  {
    hide InodeAt, Join, Resume, Advanced;
    NextEntry(fs, stack, visited, i);
  }

  /// A directory met for the first time goes on top of the stack.
  lemma PushStep(fs: Filesystem, stack: seq<Frame>, visited: set<nat>, i: Inode)
    requires stack != [] && stack[|stack| - 1].left != []
    requires InodeAt(fs.img, fs.sb, stack[|stack| - 1].left[0].inodeRef) == Ok(i) && i.number < 0x1_0000_0000
    requires i.IsDir() && i.number !in visited
    ensures var top := stack[|stack| - 1];
            var full := Join(top.path, top.left[0].name);
            var line := Line(full, top.depth + 1, i, false);
            Resume(fs, stack, visited)
            == match SortedListing(fs, i)
               case Err(e) => Walked([line], visited + {i.number}, Some(CannotList(full, e)))
               case Ok(next) => Lead(line, Resume(fs, Advanced(stack) + [Frame(full, top.depth + 1, next)],
                   visited + {i.number}))
  {
    hide InodeAt, Join, Advanced, SortedListing, Entries;
    var top := stack[|stack| - 1];
    var full := Join(top.path, top.left[0].name);
    var line := Line(full, top.depth + 1, i, false);
    NextEntry(fs, stack, visited, i);
    if SortedListing(fs, i).Ok? {
      var next := SortedListing(fs, i).value;
      var below := Entries(fs, full, top.depth + 1, next, visited + {i.number});
      var pushed := Advanced(stack) + [Frame(full, top.depth + 1, next)];
      assert pushed[|pushed| - 1] == Frame(full, top.depth + 1, next) && pushed[..|pushed| - 1] == Advanced(stack);
      if below.stop.None? {
        var after := Resume(fs, Advanced(stack), below.visited);
        assert ([line] + below.lines) + after.lines == [line] + (below.lines + after.lines);
      }
    }
  }

  /// How much a stack has left.
  function Left(stack: seq<Frame>): nat { if stack == [] then 0
      else Left(stack[..|stack| - 1]) + |stack[|stack| - 1].left| }

  /// `path` with single slashes and one in front.
  function Canonical(names: seq<seq<byte>>): seq<byte> { if names == [] then []
      else [SLASH] + names[0] + Canonical(names[1..]) }

  function Shown(path: seq<byte>): seq<byte> { if Components(path) == [] then [SLASH] else Canonical(Components(path)) }

  /// The unbounded walk from an inode: itself if it is no directory, what is below it
  /// otherwise.
  function WalkFrom(fs: Filesystem, full: seq<byte>, root: Inode): (w: Walked) {
    if !root.IsDir() then Walked([Line(full, 0, root, false)], {}, None)
    else
      match SortedListing(fs, root)
      case Err(e) => Walked([], {root.number}, Some(CannotList(full, e)))
      case Ok(es) => Entries(fs, full, 0, es, {root.number})
  }

  /// What was listed, and the rest of a report.
  function Before(lines: seq<Line>, r: Report): Report { Report(lines + r.lines, r.outcome) }

  /// A bound that stops the next line, or the attempt at it, ends the report there.
  lemma NextStopped(fs: Filesystem, stack: seq<Frame>, visited: set<nat>, k: nat, limit: nat, maxDepth: nat)
    requires stack != [] && stack[|stack| - 1].left != []
    requires var top := stack[|stack| - 1];
             Stopped(k, top.depth + 1, Join(top.path, top.left[0].name), limit, maxDepth) != Done
    ensures var top := stack[|stack| - 1];
            Bounded(Resume(fs, stack, visited), k, limit, maxDepth)
            == Report([], Stopped(k, top.depth + 1, Join(top.path, top.left[0].name), limit, maxDepth))
  {
    hide InodeAt, Join, Resume, SortedListing, Advanced;
    var ref := stack[|stack| - 1].left[0].inodeRef;
    match InodeAt(fs.img, fs.sb, ref)
    case Err(_) => Unreadable(fs, stack, visited);
    case Ok(i) =>
      NumberFits(fs.img, fs.sb, ref);
      if i.IsDir() && i.number !in visited {
        PushStep(fs, stack, visited, i);
      } else {
        LeafStep(fs, stack, visited, i);
      }
  }

  lemma NextFails(fs: Filesystem, stack: seq<Frame>, visited: set<nat>, k: nat, limit: nat, maxDepth: nat,
      lines: seq<Line>)
    requires stack != [] && stack[|stack| - 1].left != []
    requires var top := stack[|stack| - 1];
             Stopped(k, top.depth + 1, Join(top.path, top.left[0].name), limit, maxDepth) == Done
    requires InodeAt(fs.img, fs.sb, stack[|stack| - 1].left[0].inodeRef).Err?
    ensures var top := stack[|stack| - 1];
            var e := InodeAt(fs.img, fs.sb, top.left[0].inodeRef).error;
            Before(lines, Bounded(Resume(fs, stack, visited), k, limit, maxDepth))
            == Report(lines, Failed(Join(top.path, top.left[0].name), e))
  {
    hide InodeAt, Join, Resume;
    Unreadable(fs, stack, visited);
    assert lines + [] == lines;
  }

  lemma LineStands(line: Line, w: Walked, k: nat, limit: nat, maxDepth: nat, lines: seq<Line>)
    requires Stopped(k, line.depth, line.path, limit, maxDepth) == Done
    ensures Before(lines, Bounded(Lead(line, w), k, limit, maxDepth))
            == Before(lines + [line], Bounded(w, k + 1, limit, maxDepth))
  {
    hide Stopped;
    assert Lead(line, w).(lines := Lead(line, w).lines[1..]) == w by {
      assert ([line] + w.lines)[1..] == w.lines;
    }
    var rest := Bounded(w, k + 1, limit, maxDepth);
    assert lines + ([line] + rest.lines) == (lines + [line]) + rest.lines;
  }

  lemma LastLine(line: Line, visited: set<nat>, path: seq<byte>, e: Error, k: nat, limit: nat, maxDepth: nat,
      lines: seq<Line>)
    requires Stopped(k, line.depth, line.path, limit, maxDepth) == Done
    ensures Before(lines, Bounded(Walked([line], visited, Some(CannotList(path, e))), k, limit, maxDepth))
            == Report(lines + [line], Failed(path, e))
  {
    var none := Walked([], visited, Some(CannotList(path, e)));
    assert Lead(line, none) == Walked([line], visited, Some(CannotList(path, e)));
    LineStands(line, none, k, limit, maxDepth, lines);
    assert (lines + [line]) + [] == lines + [line];
  }

  lemma AdvancedLeft(stack: seq<Frame>)
    requires stack != [] && stack[|stack| - 1].left != []
    ensures Left(Advanced(stack)) + 1 == Left(stack)
  {
    assert Advanced(stack)[..|stack| - 1] == stack[..|stack| - 1];
  }

  /// A directory's children, in the order they are listed.
  method Children(fs: Filesystem, node: Inode, cache: MetaCache?) returns (r: Result<seq<DirEntry>, Error>)
    requires CacheValid(fs.img, cache) && SoundCodec(fs.img)
    modifies cache
    ensures CacheValid(fs.img, cache)
    ensures r == SortedListing(fs, node)
  {
    hide DirListing, SoundCodec;
    var listed, _ := ReadDir(fs, node, cache);
    return match listed case Err(e) => Err(e) case Ok(es) => Ok(SortByName(es));
  }

  /// `ls_recursive`: the loop over the stack lists what the recursive walk lists, cut by
  /// the bounds, and ends on every graph.
  method ListRecursive(fs: Filesystem, path: seq<byte>, limit: nat, maxDepth: nat, cache: MetaCache?)
      returns (r: Result<Report, Error>)
    requires CacheValid(fs.img, cache) && SoundCodec(fs.img)
    modifies cache
    ensures CacheValid(fs.img, cache)
    ensures match Resolve(fs, path)
            case Err(e) => r == Err(e)
            case Ok(root) => r == Ok(Bounded(WalkFrom(fs, Shown(path), root), 0, limit, maxDepth))
  {
    hide *;
    var found := LookupPath(fs, path, cache);
    if found.Err? {
      return Err(found.error);
    }
    var report := ListFrom(fs, Shown(path), found.value, limit, maxDepth, cache);
    return Ok(report);
  }

  method ListFrom(fs: Filesystem, full: seq<byte>, root: Inode, limit: nat, maxDepth: nat, cache: MetaCache?)
      returns (r: Report)
    requires CacheValid(fs.img, cache) && SoundCodec(fs.img)
    modifies cache
    ensures CacheValid(fs.img, cache)
    ensures r == Bounded(WalkFrom(fs, full, root), 0, limit, maxDepth)
  {
    hide Resume, Entries, SortedListing, SoundCodec;
    if !root.IsDir() {
      var line := Line(full, 0, root, false);
      if limit == 0 {
        return Report([], LimitReached(full));
      }
      assert Lead(line, Walked([], {}, None)) == Walked([line], {}, None);
      LineStands(line, Walked([], {}, None), 0, limit, maxDepth, []);
      return Report([line], Done);
    }
    var first := Children(fs, root, cache);
    if first.Err? {
      return Report([], Failed(full, first.error));
    }
    OneFrame(fs, Frame(full, 0, first.value), {root.number});
    r := Loop(fs, [Frame(full, 0, first.value)], {root.number}, limit, maxDepth, cache);
  }

  lemma OneFrame(fs: Filesystem, frame: Frame, visited: set<nat>)
    ensures Resume(fs, [frame], visited) == Entries(fs, frame.path, frame.depth, frame.left, visited)
  {
    hide Entries;
    assert [frame][..0] == [];
    var w := Entries(fs, frame.path, frame.depth, frame.left, visited);
    assert w.lines + [] == w.lines;
  }

  method Loop(fs: Filesystem, start: seq<Frame>, met: set<nat>, limit: nat, maxDepth: nat, cache: MetaCache?)
      returns (r: Report)
    requires CacheValid(fs.img, cache) && SoundCodec(fs.img)
    modifies cache
    ensures CacheValid(fs.img, cache)
    ensures r == Bounded(Resume(fs, start, met), 0, limit, maxDepth)
  {
    hide Resume, Bounded, Entries, SortedListing, SoundCodec, InodeAt, Join, Left, Unvisited, CacheValid;
    var stack, visited := start, met;
    var lines: seq<Line> := [];
    ghost var whole := Bounded(Resume(fs, start, met), 0, limit, maxDepth);
    assert [] + whole.lines == whole.lines;
    while stack != []
      invariant CacheValid(fs.img, cache)
      invariant whole == Before(lines, Bounded(Resume(fs, stack, visited), |lines|, limit, maxDepth))
      decreases Unvisited(visited), Left(stack), |stack|
    {
      var top := stack[|stack| - 1];
      if top.left == [] {
        EmptyFrame(fs, stack, visited);
        PoppedLeft(stack);
        stack := stack[..|stack| - 1];
        continue;
      }
      var child := top.left[0];
      var full, depth := Join(top.path, child.name), top.depth + 1;
      if |lines| >= limit {
        NextStopped(fs, stack, visited, |lines|, limit, maxDepth);
        return Report(lines, LimitReached(full));
      }
      if depth > maxDepth {
        NextStopped(fs, stack, visited, |lines|, limit, maxDepth);
        return Report(lines, DepthReached(full));
      }
      var read := ReadInode(fs.img, fs.sb, child.inodeRef, cache);
      if read.Err? {
        NextFails(fs, stack, visited, |lines|, limit, maxDepth, lines);
        return Report(lines, Failed(full, read.error));
      }
      var i := read.value;
      NumberFits(fs.img, fs.sb, child.inodeRef);
      var revisited := i.IsDir() && i.number in visited;
      var line := Line(full, depth, i, revisited);
      AdvancedLeft(stack);
      if i.IsDir() && !revisited {
        PushStep(fs, stack, visited, i);
        var next := Children(fs, i, cache);
        if next.Err? {
          LastLine(line, visited + {i.number}, full, next.error, |lines|, limit, maxDepth, lines);
          return Report(lines + [line], Failed(full, next.error));
        }
        VisitShrinks(visited, i.number, visited + {i.number});
        var pushed := Advanced(stack) + [Frame(full, depth, next.value)];
        LineStands(line, Resume(fs, pushed, visited + {i.number}), |lines|, limit, maxDepth, lines);
        stack, visited := pushed, visited + {i.number};
      } else {
        LeafStep(fs, stack, visited, i);
        LineStands(line, Resume(fs, Advanced(stack), visited), |lines|, limit, maxDepth, lines);
        stack := Advanced(stack);
      }
      lines := lines + [line];
    }
    NothingLeft(fs, visited, |lines|, limit, maxDepth, lines);
    return Report(lines, Done);
  }

  lemma PoppedLeft(stack: seq<Frame>)
    requires stack != [] && stack[|stack| - 1].left == []
    ensures Left(stack[..|stack| - 1]) == Left(stack)
  {
  }

  lemma NothingLeft(fs: Filesystem, visited: set<nat>, k: nat, limit: nat, maxDepth: nat, lines: seq<Line>)
    ensures Before(lines, Bounded(Resume(fs, [], visited), k, limit, maxDepth)) == Report(lines, Done)
  {
    assert lines + [] == lines;
  }

  // ----- what the listing of a path amounts to -----

  lemma {:induction false} CanonicalComponents(names: seq<seq<byte>>)
    requires forall k :: 0 <= k < |names| ==> names[k] != [] && SLASH !in names[k]
    ensures Components(Canonical(names)) == names
  {
    hide Components;
    if names == [] {
      NoComponents();
    } else {
      var rest := Canonical(names[1..]);
      CanonicalComponents(names[1..]);
      OneComponent(names[0]);
      SlashJoins([], names[0] + rest);
      assert Canonical(names) == [SLASH] + (names[0] + rest);
      if names[1..] == [] {
        assert names[0] + rest == names[0] && names == [names[0]];
      } else {
        var after := rest[1..];
        assert rest == [SLASH] + after && names[0] + rest == names[0] + [SLASH] + after;
        SlashJoins(names[0], after);
      }
    }
  }

  lemma {:induction false} PiecesHaveNoSlash(path: seq<byte>, k: nat)
    requires k < |Split(path)|
    ensures SLASH !in Split(path)[k]
  {
    if path != [] {
      if path[0] == SLASH {
        if k > 0 { PiecesHaveNoSlash(path[1..], k - 1); }
      } else {
        PiecesHaveNoSlash(path[1..], k);
      }
    }
  }

  lemma {:induction false} NonEmptyKeeps(pieces: seq<seq<byte>>, piece: seq<byte>)
    ensures piece in NonEmpty(pieces) <==> piece in pieces && piece != []
  {
    if pieces != [] {
      NonEmptyKeeps(pieces[1..], piece);
      assert pieces == [pieces[0]] + pieces[1..];
    }
  }

  /// The path a listing shows for its start resolves as the path that was asked for.
  lemma ShownResolves(fs: Filesystem, path: seq<byte>)
    ensures Components(Shown(path)) == Components(path) && Resolve(fs, Shown(path)) == Resolve(fs, path)
  {
    hide Descend, InodeAt;
    var names := Components(path);
    forall k | 0 <= k < |names| ensures names[k] != [] && SLASH !in names[k] {
      NonEmptyKeeps(Split(path), names[k]);
      var j :| 0 <= j < |Split(path)| && Split(path)[j] == names[k];
      PiecesHaveNoSlash(path, j);
    }
    CanonicalComponents(names);
    if names == [] {
      var one := seq(1, _ => SLASH);
      assert [SLASH] == [] + one + [];
      ComponentsJoined([], 1, []);
      NoComponents();
    }
  }

  /// With unique sibling names, every path a recursive listing prints, under any bounds,
  /// resolves to the inode it is printed for, and its depth counts its components.
  lemma PrintedPathsResolve(fs: Filesystem, path: seq<byte>, root: Inode, limit: nat, maxDepth: nat, line: Line)
    requires NamesUnique(fs) && Resolve(fs, path) == Ok(root)
    requires line in Bounded(WalkFrom(fs, Shown(path), root), 0, limit, maxDepth).lines
    ensures Resolve(fs, line.path) == Ok(line.inode) && |Components(line.path)| == |Components(path)| + line.depth
  {
    hide Components, Resolve, Entries, DirListing, Bounded, Shown, NamesUnique, SortByName;
    var w := WalkFrom(fs, Shown(path), root);
    BoundedIsPrefix(w, 0, limit, maxDepth);
    ShownResolves(fs, path);
    assert line in w.lines;
    if root.IsDir() && SortedListing(fs, root).Ok? {
      var es := SortedListing(fs, root).value;
      forall e | e in es ensures e in DirListing(fs, root).value {
        SortKeeps(DirListing(fs, root).value, e);
      }
      EntriesFound(fs, Shown(path), 0, es, {root.number}, root, |Components(path)|);
      assert Found(fs, line, |Components(path)|);
    }
  }
}
