/** The tree a storage walk visits, what its totals mean globally, and the boundary lists as global definitions
    (src/StorageManager/path_tree.py, PathTree._walk). */
module VisitedTree {
  import opened Jobs

  /** What os.stat reports; sizes are never negative. */
  datatype Stat = Stat(size: nat, atime: int, mtime: int, ctime: int)

  datatype Child = Child(name: string, entry: Entry)

  /** The file system below a path. A failing stat or listdir is None or `readable == false`. */
  datatype Entry =
    | Link
    | File(fstat: Option<Stat>)
    | Dir(dstat: Option<Stat>, readable: bool, listing: seq<Child>)

  type Path = seq<string>

  /** A visited node: directories keep the visited children, sub-directories first. */
  datatype Node = Node(path: Path, isdir: bool, stat: Stat, kids: seq<Node>)

  // ---- What is visited -----------------------------------------------------------------------------

  ghost predicate UniqueNames(entry: Entry) {
    entry.Dir? ==>
      && (forall i, j | 0 <= i < j < |entry.listing| :: entry.listing[i].name != entry.listing[j].name)
      && (forall i | 0 <= i < |entry.listing| :: UniqueNames(entry.listing[i].entry))
  }

  function Dirs(listing: seq<Child>): (r: seq<Child>)
    ensures forall c | c in r :: c in listing && c.entry.Dir?
  {
    if listing == [] then []
    else Dirs(listing[..|listing| - 1]) + if listing[|listing| - 1].entry.Dir? then [listing[|listing| - 1]] else []
  }

  function Files(listing: seq<Child>): (r: seq<Child>)
    ensures forall c | c in r :: c in listing && c.entry.File?
  {
    if listing == [] then []
    else Files(listing[..|listing| - 1]) + if listing[|listing| - 1].entry.File? then [listing[|listing| - 1]] else []
  }

  /** The visited tree of a directory; None where the walk gives up on it. */
  function Visit(path: Path, entry: Entry): Option<Node>
    requires entry.Dir?
    decreases entry, 1
  {
    if entry.dstat.None? || !entry.readable then None
    else Some(Node(path, true, entry.dstat.value,
                   VisitDirs(path, entry, Dirs(entry.listing)) + VisitFiles(path, Files(entry.listing))))
  }

  function VisitDirs(path: Path, parent: Entry, dirs: seq<Child>): seq<Node>
    requires parent.Dir? && forall c | c in dirs :: c in parent.listing && c.entry.Dir?
    decreases parent, 0, |dirs|
  {
    if dirs == [] then []
    else
      var n := |dirs| - 1;
      assert dirs[n] in parent.listing;
      var kid := Visit(path + [dirs[n].name], dirs[n].entry);
      VisitDirs(path, parent, dirs[..n]) + if kid.Some? then [kid.value] else []
  }

  function VisitFiles(path: Path, files: seq<Child>): seq<Node>
    requires forall c | c in files :: c.entry.File?
  {
    if files == [] then []
    else
      var n := |files| - 1;
      assert files[n] in files;
      VisitFiles(path, files[..n]) +
      if files[n].entry.fstat.Some? then [Node(path + [files[n].name], false, files[n].entry.fstat.value, [])] else []
  }

  // ---- Global meaning ------------------------------------------------------------------------------

  /** Every node of the tree, the root first. */
  function Nodes(v: Node): seq<Node>
    decreases v, 1
  {
    [v] + NodesOf(v.kids)
  }

  function NodesOf(kids: seq<Node>): seq<Node>
    decreases kids, 0
  {
    if kids == [] then [] else NodesOf(kids[..|kids| - 1]) + Nodes(kids[|kids| - 1])
  }

  function SizeOf(nodes: seq<Node>): nat {
    if nodes == [] then 0 else SizeOf(nodes[..|nodes| - 1]) + nodes[|nodes| - 1].stat.size
  }

  function FileCount(nodes: seq<Node>): nat {
    if nodes == [] then 0 else FileCount(nodes[..|nodes| - 1]) + if nodes[|nodes| - 1].isdir then 0 else 1
  }

  datatype Clock = Atime | Mtime | Ctime

  function Time(stat: Stat, clock: Clock): int {
    match clock
    case Atime => stat.atime
    case Mtime => stat.mtime
    case Ctime => stat.ctime
  }

  function Later(a: int, b: int): int {
    if b > a then b else a
  }

  function Latest(nodes: seq<Node>, clock: Clock): int
    requires nodes != []
  {
    var last := Time(nodes[|nodes| - 1].stat, clock);
    if |nodes| == 1 then last else Later(Latest(nodes[..|nodes| - 1], clock), last)
  }

  function Size(v: Node): nat { SizeOf(Nodes(v)) }

  // ---- What is visited, over the file system alone ---------------------------------------------------

  /** The walk makes a node of this entry, of this kind and with this stat. */
  predicate Seen(entry: Entry, isdir: bool, stat: Stat) {
    match entry
    case Link => false
    case File(fstat) => !isdir && fstat == Some(stat)
    case Dir(dstat, readable, _) => isdir && dstat == Some(stat) && readable
  }

  /** From the directory one gets by these names, through directories that have a stat and can be listed, to an entry
      of this kind and stat. */
  ghost predicate Reaches(entry: Entry, names: seq<string>, isdir: bool, stat: Stat)
    decreases |names|
  {
    if names == [] then Seen(entry, isdir, stat)
    else
      && entry.Dir? && entry.dstat.Some? && entry.readable
      && exists i | 0 <= i < |entry.listing| ::
           entry.listing[i].name == names[0] && Reaches(entry.listing[i].entry, names[1..], isdir, stat)
  }

  ghost predicate HasNode(v: Node, path: Path, isdir: bool, stat: Stat) {
    exists n :: n in Nodes(v) && n.path == path && n.isdir == isdir && n.stat == stat
  }

  lemma {:induction false} InDirs(listing: seq<Child>, c: Child)
    ensures c in Dirs(listing) <==> c in listing && c.entry.Dir?
    ensures c in Files(listing) <==> c in listing && c.entry.File?
  {
    if listing == [] {
    } else {
      InDirs(listing[..|listing| - 1], c);
      assert listing == listing[..|listing| - 1] + [listing[|listing| - 1]];
    }
  }

  lemma {:induction false} InVisitFiles(path: Path, files: seq<Child>, k: Node)
    requires forall c | c in files :: c.entry.File?
    ensures k in VisitFiles(path, files) <==>
            exists i :: 0 <= i < |files| && files[i].entry.fstat.Some? && k == Node(path + [files[i].name], false, files[i].entry.fstat.value, [])
  {
    if files == [] {
    } else {
      var n := |files| - 1;
      InVisitFiles(path, files[..n], k);
      assert files[n] in files;
      if i :| 0 <= i < |files| && files[i].entry.fstat.Some? && k == Node(path + [files[i].name], false, files[i].entry.fstat.value, []) {
        if i < n { assert files[..n][i] == files[i]; }
      }
    }
  }

  lemma {:induction false} FromVisitDirs(path: Path, parent: Entry, dirs: seq<Child>, k: Node) returns (i: nat)
    requires parent.Dir? && forall c | c in dirs :: c in parent.listing && c.entry.Dir?
    requires k in VisitDirs(path, parent, dirs)
    ensures i < |dirs| && dirs[i] in dirs && Visit(path + [dirs[i].name], dirs[i].entry) == Some(k)
  {
    i := |dirs| - 1;
    assert dirs[i] in dirs;
    if Visit(path + [dirs[i].name], dirs[i].entry) != Some(k) {
      i := FromVisitDirs(path, parent, dirs[..i], k);
    }
  }

  lemma {:induction false} IntoVisitDirs(path: Path, parent: Entry, dirs: seq<Child>, i: nat, k: Node)
    requires parent.Dir? && forall c | c in dirs :: c in parent.listing && c.entry.Dir?
    requires i < |dirs| && dirs[i] in dirs && Visit(path + [dirs[i].name], dirs[i].entry) == Some(k)
    ensures k in VisitDirs(path, parent, dirs)
  {
    var n := |dirs| - 1;
    assert dirs[n] in dirs;
    if i < n {
      assert dirs[..n][i] == dirs[i];
      IntoVisitDirs(path, parent, dirs[..n], i, k);
    }
  }

  // ---- Totals of concatenations --------------------------------------------------------------------

  lemma {:induction false} TotalsConcat(a: seq<Node>, b: seq<Node>)
    ensures SizeOf(a + b) == SizeOf(a) + SizeOf(b)
    ensures FileCount(a + b) == FileCount(a) + FileCount(b)
  {
    if b == [] {
      assert a + b == a;
    } else {
      TotalsConcat(a, b[..|b| - 1]);
      assert (a + b)[..|a + b| - 1] == a + b[..|b| - 1];
    }
  }

  /** The totals add up the sizes and count the files one by one. */
  lemma TotalsCount(nodes: seq<Node>)
    ensures FileCount(nodes) == |set i | 0 <= i < |nodes| && !nodes[i].isdir|
    ensures SizeOf(nodes) == if nodes == [] then 0 else nodes[0].stat.size + SizeOf(nodes[1..])
  {
    FilesCounted(nodes, |nodes|);
    assert nodes[..|nodes|] == nodes;
    if nodes != [] {
      TotalsConcat([nodes[0]], nodes[1..]);
      assert [nodes[0]] + nodes[1..] == nodes && [nodes[0]][..0] == [];
      assert SizeOf([nodes[0]]) == SizeOf([]) + nodes[0].stat.size;
    }
  }

  lemma {:induction false} FilesCounted(nodes: seq<Node>, k: nat)
    requires k <= |nodes|
    ensures FileCount(nodes[..k]) == |set i | 0 <= i < k && !nodes[i].isdir|
  {
    if k == 0 {
    } else {
      FilesCounted(nodes, k - 1);
      assert nodes[..k][..k - 1] == nodes[..k - 1];
      var before, now := set i | 0 <= i < k - 1 && !nodes[i].isdir, set i | 0 <= i < k && !nodes[i].isdir;
      assert now == if nodes[k - 1].isdir then before else before + {k - 1};
    }
  }

  lemma {:induction false} LatestConcat(a: seq<Node>, b: seq<Node>, clock: Clock)
    requires a != []
    ensures Latest(a + b, clock) == if b == [] then Latest(a, clock) else Later(Latest(a, clock), Latest(b, clock))
  {
    if b == [] {
      assert a + b == a;
    } else {
      LatestConcat(a, b[..|b| - 1], clock);
      assert (a + b)[..|a + b| - 1] == a + b[..|b| - 1];
      assert |b| == 1 ==> b[..|b| - 1] == [] && a + b[..0] == a;
    }
  }

  /** The latest time is before a cutoff exactly when every node's is. */
  lemma {:induction false} LatestBefore(nodes: seq<Node>, clock: Clock, cutoff: int)
    requires nodes != []
    ensures Latest(nodes, clock) < cutoff <==> forall n | n in nodes :: Time(n.stat, clock) < cutoff
  {
    var k := |nodes| - 1;
    assert nodes == nodes[..k] + [nodes[k]];
    if k == 0 {
    } else {
      LatestBefore(nodes[..k], clock, cutoff);
    }
  }

  lemma {:induction false} NoFiles(nodes: seq<Node>)
    ensures FileCount(nodes) == 0 <==> forall n | n in nodes :: n.isdir
  {
    if nodes == [] {
    } else {
      var k := |nodes| - 1;
      NoFiles(nodes[..k]);
      assert nodes == nodes[..k] + [nodes[k]];
    }
  }

  // ---- Tree structure ------------------------------------------------------------------------------

  /** Files have no children, children extend the path by one name, and names are unique. */
  ghost predicate WellFormed(v: Node)
    decreases v
  {
    && (!v.isdir ==> v.kids == [])
    && (forall i | 0 <= i < |v.kids| :: WellFormed(v.kids[i]))
    && (forall i | 0 <= i < |v.kids| :: |v.kids[i].path| == |v.path| + 1 && v.path <= v.kids[i].path)
    && (forall i, j | 0 <= i < j < |v.kids| :: v.kids[i].path != v.kids[j].path)
  }

  lemma {:induction false} InNodesOf(kids: seq<Node>, n: Node)
    ensures n in NodesOf(kids) <==> exists i :: 0 <= i < |kids| && n in Nodes(kids[i])
  {
    if kids == [] {
    } else {
      var k := |kids| - 1;
      InNodesOf(kids[..k], n);
      if n in NodesOf(kids) && n in NodesOf(kids[..k]) {
        var i :| 0 <= i < k && n in Nodes(kids[..k][i]);
        assert n in Nodes(kids[i]);
      }
      if exists i :: 0 <= i < |kids| && n in Nodes(kids[i]) {
        var i :| 0 <= i < |kids| && n in Nodes(kids[i]);
        if i < k { assert n in Nodes(kids[..k][i]); }
      }
    }
  }

  /** A node of a tree is the root or a node of one of the children. */
  lemma InNodes(v: Node, n: Node)
    ensures n in Nodes(v) <==> n == v || exists i :: 0 <= i < |v.kids| && n in Nodes(v.kids[i])
  {
    InNodesOf(v.kids, n);
  }

  lemma {:induction false} PathsBelow(v: Node, n: Node)
    requires WellFormed(v) && n in Nodes(v)
    ensures v.path <= n.path && (n != v ==> |n.path| > |v.path|) && WellFormed(n)
    decreases v
  {
    InNodes(v, n);
    if n != v {
      var i :| 0 <= i < |v.kids| && n in Nodes(v.kids[i]);
      PathsBelow(v.kids[i], n);
    }
  }

  lemma {:induction false} NodesTransitive(v: Node, m: Node, n: Node)
    requires m in Nodes(v) && n in Nodes(m)
    ensures n in Nodes(v)
    decreases v
  {
    InNodes(v, m);
    InNodes(v, n);
    if m != v {
      var i :| 0 <= i < |v.kids| && m in Nodes(v.kids[i]);
      NodesTransitive(v.kids[i], m, n);
    }
  }

  /** Within one tree, a path prefix means containment; so equal paths mean equal nodes. */
  lemma {:induction false} PrefixMeansBelow(v: Node, m: Node, n: Node)
    requires WellFormed(v) && m in Nodes(v) && n in Nodes(v) && m.path <= n.path
    ensures n in Nodes(m) && (m.path == n.path ==> m == n)
    decreases v
  {
    InNodes(v, m);
    InNodes(v, n);
    PathsBelow(v, m);
    PathsBelow(v, n);
    if m != v {
      assert n != v;
      var i :| 0 <= i < |v.kids| && m in Nodes(v.kids[i]);
      var j :| 0 <= j < |v.kids| && n in Nodes(v.kids[j]);
      PathsBelow(v.kids[i], m);
      PathsBelow(v.kids[j], n);
      SameFirstStep(v, i, j, n.path);
      PrefixMeansBelow(v.kids[i], m, n);
    }
  }

  lemma SameFirstStep(v: Node, i: nat, j: nat, path: Path)
    requires WellFormed(v) && i < |v.kids| && j < |v.kids|
    requires v.kids[i].path <= path && v.kids[j].path <= path
    ensures i == j
  {
    assert v.kids[i].path == path[..|v.path| + 1] == v.kids[j].path;
  }

  /** Every node but the root is a child of some node. */
  lemma {:induction false} HasParent(v: Node, n: Node) returns (p: Node)
    requires n in Nodes(v) && n != v
    ensures p in Nodes(v) && n in p.kids
    decreases v
  {
    InNodes(v, n);
    var i :| 0 <= i < |v.kids| && n in Nodes(v.kids[i]);
    if n == v.kids[i] {
      p := v;
    } else {
      p := HasParent(v.kids[i], n);
    }
    InNodes(v, p);
  }

  lemma KidInNodes(v: Node, k: Node)
    requires k in v.kids
    ensures k in Nodes(v)
  {
    InNodes(v, k);
    var i :| 0 <= i < |v.kids| && v.kids[i] == k;
    assert k in Nodes(v.kids[i]);
  }

  lemma {:induction false} SizeOfPart(kids: seq<Node>, i: nat)
    requires i < |kids|
    ensures Size(kids[i]) <= SizeOf(NodesOf(kids))
  {
    var k := |kids| - 1;
    TotalsConcat(NodesOf(kids[..k]), Nodes(kids[k]));
    if i < k {
      SizeOfPart(kids[..k], i);
    }
  }

  /** A subtree is never larger than a tree containing it. */
  lemma {:induction false} SizeMonotone(v: Node, n: Node)
    requires n in Nodes(v)
    ensures Size(n) <= Size(v)
    decreases v
  {
    InNodes(v, n);
    if n != v {
      var i :| 0 <= i < |v.kids| && n in Nodes(v.kids[i]);
      SizeMonotone(v.kids[i], n);
      SizeOfPart(v.kids, i);
      TotalsConcat([v], NodesOf(v.kids));
    }
  }

  // ---- Every reachable file and directory once ---------------------------------------------------------

  /** What the walk makes of one child of a directory. */
  function VisitChild(path: Path, c: Child): Option<Node> {
    match c.entry
    case Link => None
    case File(fstat) => if fstat.Some? then Some(Node(path + [c.name], false, fstat.value, [])) else None
    case Dir(_, _, _) => Visit(path + [c.name], c.entry)
  }

  /** The children of a visited directory are what the walk makes of each listed name, no more and no less. */
  lemma KidsExactly(path: Path, entry: Entry, k: Node)
    requires entry.Dir? && Visit(path, entry).Some?
    ensures k in Visit(path, entry).value.kids <==>
            exists i :: 0 <= i < |entry.listing| && VisitChild(path, entry.listing[i]) == Some(k)
  {
    forall i | 0 <= i < |entry.listing| && VisitChild(path, entry.listing[i]) == Some(k)
      ensures k in Visit(path, entry).value.kids
    {
      ChildIsKid(path, entry, i, k);
    }
    if k in Visit(path, entry).value.kids {
      var i := KidIsChild(path, entry, k);
    }
  }

  lemma ChildIsKid(path: Path, entry: Entry, i: nat, k: Node)
    requires entry.Dir? && Visit(path, entry).Some? && i < |entry.listing| && VisitChild(path, entry.listing[i]) == Some(k)
    ensures k in Visit(path, entry).value.kids
  {
    var c := entry.listing[i];
    InDirs(entry.listing, c);
    if c.entry.Dir? {
      var j :| 0 <= j < |Dirs(entry.listing)| && Dirs(entry.listing)[j] == c;
      IntoVisitDirs(path, entry, Dirs(entry.listing), j, k);
    } else {
      var j :| 0 <= j < |Files(entry.listing)| && Files(entry.listing)[j] == c;
      InVisitFiles(path, Files(entry.listing), k);
    }
  }

  lemma KidIsChild(path: Path, entry: Entry, k: Node) returns (i: nat)
    requires entry.Dir? && Visit(path, entry).Some? && k in Visit(path, entry).value.kids
    ensures i < |entry.listing| && VisitChild(path, entry.listing[i]) == Some(k)
  {
    var dirs, files := Dirs(entry.listing), Files(entry.listing);
    if k in VisitDirs(path, entry, dirs) {
      var j := FromVisitDirs(path, entry, dirs, k);
      i :| 0 <= i < |entry.listing| && entry.listing[i] == dirs[j];
    } else {
      InVisitFiles(path, files, k);
      var j :| 0 <= j < |files| && files[j].entry.fstat.Some? && k == Node(path + [files[j].name], false, files[j].entry.fstat.value, []);
      assert files[j] in files;
      i :| 0 <= i < |entry.listing| && entry.listing[i] == files[j];
    }
  }

  lemma {:induction false} VisitedPaths(path: Path, entry: Entry, n: Node)
    requires entry.Dir? && Visit(path, entry).Some? && n in Nodes(Visit(path, entry).value)
    ensures path <= n.path && (n.path == path ==> n == Visit(path, entry).value)
    decreases entry
  {
    var v := Visit(path, entry).value;
    InNodes(v, n);
    if n != v {
      var k :| 0 <= k < |v.kids| && n in Nodes(v.kids[k]);
      var i := KidIsChild(path, entry, v.kids[k]);
      var c := entry.listing[i];
      if c.entry.Dir? {
        VisitedPaths(path + [c.name], c.entry, n);
      } else {
        InNodes(v.kids[k], n);
      }
      assert path <= path + [c.name] <= n.path;
    }
  }

  /** The walk makes a node of exactly the files and directories that can be reached: every directory on the way has a
      stat and can be listed, no step is a link, and path, kind and stat are those of what is there. */
  lemma {:induction false} VisitedExactly(path: Path, entry: Entry, names: seq<string>, isdir: bool, stat: Stat)
    requires entry.Dir? && Visit(path, entry).Some?
    ensures HasNode(Visit(path, entry).value, path + names, isdir, stat) <==> Reaches(entry, names, isdir, stat)
    decreases |names|
  {
    var v := Visit(path, entry).value;
    if names == [] {
      assert path + names == path;
      InNodes(v, v);
      forall n | n in Nodes(v) && n.path == path ensures n == v { VisitedPaths(path, entry, n); }
    } else {
      if HasNode(v, path + names, isdir, stat) {
        var n :| n in Nodes(v) && n.path == path + names && n.isdir == isdir && n.stat == stat;
        NodeReached(path, entry, names, n);
      }
      if Reaches(entry, names, isdir, stat) {
        ReachedNode(path, entry, names, isdir, stat);
      }
    }
  }

  lemma {:induction false} NodeReached(path: Path, entry: Entry, names: seq<string>, n: Node)
    requires entry.Dir? && Visit(path, entry).Some? && names != []
    requires n in Nodes(Visit(path, entry).value) && n.path == path + names
    ensures Reaches(entry, names, n.isdir, n.stat)
    decreases |names|, 0
  {
    var v := Visit(path, entry).value;
    InNodes(v, n);
    var k :| 0 <= k < |v.kids| && n in Nodes(v.kids[k]);
    var i := KidIsChild(path, entry, v.kids[k]);
    var c := entry.listing[i];
    if c.entry.Dir? {
      VisitedPaths(path + [c.name], c.entry, n);
      SplitPath(path, c.name, names, n.path);
      VisitedExactly(path + [c.name], c.entry, names[1..], n.isdir, n.stat);
    } else {
      InNodes(v.kids[k], n);
      SplitPath(path, c.name, names, n.path);
      assert path + [c.name] + names[1..] == path + [c.name] ==> |names[1..]| == 0;
    }
  }

  lemma SplitPath(path: Path, name: string, names: seq<string>, p: Path)
    requires names != [] && p == path + names && path + [name] <= p
    ensures names[0] == name && p == path + [name] + names[1..]
  {
    assert p[|path|] == (path + [name])[|path|];
  }

  lemma {:induction false} ReachedNode(path: Path, entry: Entry, names: seq<string>, isdir: bool, stat: Stat)
    requires entry.Dir? && Visit(path, entry).Some? && names != [] && Reaches(entry, names, isdir, stat)
    ensures HasNode(Visit(path, entry).value, path + names, isdir, stat)
    decreases |names|, 0
  {
    var v := Visit(path, entry).value;
    var i :| 0 <= i < |entry.listing| && entry.listing[i].name == names[0] && Reaches(entry.listing[i].entry, names[1..], isdir, stat);
    var c := entry.listing[i];
    assert path + [c.name] + names[1..] == path + names;
    var k := ReachedChild(path, c, names[1..], isdir, stat);
    ChildIsKid(path, entry, i, k);
    if c.entry.Dir? {
      VisitedExactly(path + [c.name], c.entry, names[1..], isdir, stat);
    } else {
      InNodes(k, k);
    }
    KidHasNode(v, k, path + names, isdir, stat);
  }

  lemma ReachedChild(path: Path, c: Child, rest: seq<string>, isdir: bool, stat: Stat) returns (k: Node)
    requires Reaches(c.entry, rest, isdir, stat)
    ensures VisitChild(path, c) == Some(k)
    ensures !c.entry.Dir? ==> rest == [] && k == Node(path + [c.name], isdir, stat, [])
  {
    k := VisitChild(path, c).value;
  }

  lemma KidHasNode(v: Node, k: Node, path: Path, isdir: bool, stat: Stat)
    requires k in v.kids && HasNode(k, path, isdir, stat)
    ensures HasNode(v, path, isdir, stat)
  {
    var j :| 0 <= j < |v.kids| && v.kids[j] == k;
    var n :| n in Nodes(k) && n.path == path && n.isdir == isdir && n.stat == stat;
    InNodes(v, n);
  }

  /** Where the walk gives up nothing can be reached. */
  lemma NothingReached(path: Path, entry: Entry)
    requires entry.Dir?
    ensures Visit(path, entry).None? <==> forall names, isdir, stat :: !Reaches(entry, names, isdir, stat)
  {
    if Visit(path, entry).Some? {
      assert Reaches(entry, [], true, entry.dstat.value);
    }
  }

  /** In a tree with unique paths no node occurs twice among its nodes. */
  lemma {:induction false} NodesOnce(v: Node)
    requires WellFormed(v)
    ensures NoDuplicates(Nodes(v))
    decreases v
  {
    forall i | 0 <= i < |v.kids| ensures NoDuplicates(Nodes(v.kids[i])) { NodesOnce(v.kids[i]); }
    NodesOfOnce(v, |v.kids|);
    assert v.kids[..|v.kids|] == v.kids;
    forall n | n in NodesOf(v.kids) ensures n != v {
      InNodesOf(v.kids, n);
      var i :| 0 <= i < |v.kids| && n in Nodes(v.kids[i]);
      PathsBelow(v.kids[i], n);
    }
    NoDuplicatesConcat([v], NodesOf(v.kids));
  }

  lemma NodesApart(v: Node, k: nat, n: Node)
    requires WellFormed(v) && k < |v.kids| && n in NodesOf(v.kids[..k])
    ensures n !in Nodes(v.kids[k])
  {
    InNodesOf(v.kids[..k], n);
    var i :| 0 <= i < k && n in Nodes(v.kids[..k][i]);
    KidsDisjoint(v, i, k, n);
  }

  lemma {:induction false} NodesOfOnce(v: Node, k: nat)
    requires WellFormed(v) && k <= |v.kids| && forall i | 0 <= i < k :: NoDuplicates(Nodes(v.kids[i]))
    ensures NoDuplicates(NodesOf(v.kids[..k]))
  {
    if k == 0 {
    } else {
      NodesOfOnce(v, k - 1);
      assert v.kids[..k][..k - 1] == v.kids[..k - 1];
      var a, b := NodesOf(v.kids[..k - 1]), Nodes(v.kids[k - 1]);
      forall n | n in a ensures n !in b { NodesApart(v, k - 1, n); }
      NoDuplicatesConcat(a, b);
    }
  }

  // ---- Maximal subtrees all of whose nodes pass a test ---------------------------------------------

  type Test = Node -> bool

  predicate All(q: Test, v: Node) {
    forall n | n in Nodes(v) :: q(n)
  }

  function Passing(q: Test, kids: seq<Node>): seq<Node> {
    if kids == [] then []
    else Passing(q, kids[..|kids| - 1]) + if All(q, kids[|kids| - 1]) then [kids[|kids| - 1]] else []
  }

  /** In walk order: what the children's walks list, then the passing children of a root that fails. */
  function Maximal(q: Test, v: Node): seq<Node>
    decreases v, 1
  {
    MaximalOf(q, v.kids) + if All(q, v) then [] else Passing(q, v.kids)
  }

  function MaximalOf(q: Test, kids: seq<Node>): seq<Node>
    decreases kids, 0
  {
    if kids == [] then [] else MaximalOf(q, kids[..|kids| - 1]) + Maximal(q, kids[|kids| - 1])
  }

  lemma {:induction false} InPassing(q: Test, kids: seq<Node>, n: Node)
    ensures n in Passing(q, kids) <==> n in kids && All(q, n)
  {
    if kids == [] {
    } else {
      InPassing(q, kids[..|kids| - 1], n);
      assert kids == kids[..|kids| - 1] + [kids[|kids| - 1]];
    }
  }

  lemma InMaximalOf(q: Test, kids: seq<Node>, n: Node)
    ensures n in MaximalOf(q, kids) <==> exists i :: 0 <= i < |kids| && n in Maximal(q, kids[i])
  {
    if n in MaximalOf(q, kids) {
      var i := FromMaximalOf(q, kids, n);
    }
    forall i | 0 <= i < |kids| && n in Maximal(q, kids[i]) ensures n in MaximalOf(q, kids) {
      IntoMaximalOf(q, kids, i, n);
    }
  }

  lemma {:induction false} FromMaximalOf(q: Test, kids: seq<Node>, n: Node) returns (i: nat)
    requires n in MaximalOf(q, kids)
    ensures i < |kids| && n in Maximal(q, kids[i])
  {
    i := |kids| - 1;
    if n !in Maximal(q, kids[i]) {
      i := FromMaximalOf(q, kids[..i], n);
    }
  }

  lemma {:induction false} IntoMaximalOf(q: Test, kids: seq<Node>, i: nat, n: Node)
    requires i < |kids| && n in Maximal(q, kids[i])
    ensures n in MaximalOf(q, kids)
  {
    if i < |kids| - 1 {
      IntoMaximalOf(q, kids[..|kids| - 1], i, n);
    }
  }

  /** The listed nodes are the passing children of failing nodes. */
  lemma {:induction false} InMaximal(q: Test, v: Node, n: Node)
    ensures n in Maximal(q, v) <==> exists p :: p in Nodes(v) && n in p.kids && All(q, n) && !All(q, p)
    decreases v
  {
    InMaximalOf(q, v.kids, n);
    InPassing(q, v.kids, n);
    if n in MaximalOf(q, v.kids) {
      var i :| 0 <= i < |v.kids| && n in Maximal(q, v.kids[i]);
      InMaximal(q, v.kids[i], n);
      var p :| p in Nodes(v.kids[i]) && n in p.kids && All(q, n) && !All(q, p);
      InNodes(v, p);
    } else if n in Maximal(q, v) {
      assert v in Nodes(v) && n in v.kids;
    }
    if exists p :: p in Nodes(v) && n in p.kids && All(q, n) && !All(q, p) {
      var p :| p in Nodes(v) && n in p.kids && All(q, n) && !All(q, p);
      InNodes(v, p);
      if p != v {
        var i :| 0 <= i < |v.kids| && p in Nodes(v.kids[i]);
        InMaximal(q, v.kids[i], n);
      }
    }
  }

  lemma AllBelow(q: Test, m: Node, n: Node)
    requires All(q, m) && n in Nodes(m)
    ensures All(q, n)
  {
    forall x | x in Nodes(n) ensures q(x) { NodesTransitive(m, n, x); }
  }

  /** `n` passes as a whole, and no larger subtree of `v` around it does. */
  ghost predicate IsMaximal(q: Test, v: Node, n: Node) {
    && n in Nodes(v) && All(q, n)
    && forall m | m in Nodes(v) && n in Nodes(m) && All(q, m) :: m == n
  }

  /** Below a root that fails, the list is exactly the maximal passing subtrees; below one that passes it is empty. */
  lemma MaximalExactly(q: Test, v: Node, n: Node)
    requires WellFormed(v)
    ensures All(q, v) ==> n !in Maximal(q, v)
    ensures !All(q, v) ==> (n in Maximal(q, v) <==> IsMaximal(q, v, n))
  {
    InMaximal(q, v, n);
    if n in Maximal(q, v) {
      var p :| p in Nodes(v) && n in p.kids && All(q, n) && !All(q, p);
      if All(q, v) { AllBelow(q, v, p); }
      KidInNodes(p, n);
      NodesTransitive(v, p, n);
      forall m | m in Nodes(v) && n in Nodes(m) && All(q, m) ensures m == n {
        if m != n {
          var p' := HasParent(m, n);
          AllBelow(q, m, p');
          NodesTransitive(v, m, p');
          SameParent(v, p, p', n);
        }
      }
    } else if !All(q, v) && IsMaximal(q, v, n) {
      var p := HasParent(v, n);
      KidInNodes(p, n);
      PathsBelow(v, p);
      ChildLonger(p, n);
    }
  }

  lemma ChildLonger(p: Node, n: Node)
    requires WellFormed(p) && n in p.kids
    ensures |n.path| == |p.path| + 1 && p.path == n.path[..|p.path|] && n != p
  {
    var i :| 0 <= i < |p.kids| && p.kids[i] == n;
    assert p.path <= p.kids[i].path;
  }

  lemma SameParent(v: Node, p: Node, p': Node, n: Node)
    requires WellFormed(v) && p in Nodes(v) && p' in Nodes(v) && n in p.kids && n in p'.kids
    ensures p == p'
  {
    PathsBelow(v, p);
    PathsBelow(v, p');
    ChildLonger(p, n);
    ChildLonger(p', n);
    PrefixMeansBelow(v, p, p');
  }

  /** The listed subtrees have no node in common. */
  lemma MaximalDisjoint(q: Test, v: Node, m: Node, n: Node, x: Node)
    requires WellFormed(v) && m in Maximal(q, v) && n in Maximal(q, v) && x in Nodes(m) && x in Nodes(n)
    ensures m == n
  {
    MaximalExactly(q, v, m);
    MaximalExactly(q, v, n);
    PathsBelow(v, m);
    PathsBelow(v, n);
    PathsBelow(m, x);
    PathsBelow(n, x);
    if |m.path| <= |n.path| {
      assert m.path == x.path[..|m.path|] == n.path[..|m.path|];
      PrefixMeansBelow(v, m, n);
    } else {
      assert n.path == x.path[..|n.path|] == m.path[..|n.path|];
      PrefixMeansBelow(v, n, m);
    }
  }

  /** Every passing subtree lies in a listed one. */
  lemma {:induction false} MaximalCovers(q: Test, v: Node, n: Node) returns (m: Node)
    requires n in Nodes(v) && All(q, n) && !All(q, v)
    ensures m in Maximal(q, v) && n in Nodes(m)
    decreases v
  {
    InNodes(v, n);
    var i :| 0 <= i < |v.kids| && n in Nodes(v.kids[i]);
    if All(q, v.kids[i]) {
      m := v.kids[i];
      InPassing(q, v.kids, m);
    } else {
      m := MaximalCovers(q, v.kids[i], n);
      InMaximalOf(q, v.kids, m);
    }
  }

  // ---- Each listed once ----------------------------------------------------------------------------

  ghost predicate NoDuplicates(nodes: seq<Node>) {
    forall i, j | 0 <= i < j < |nodes| :: nodes[i] != nodes[j]
  }

  lemma NoDuplicatesConcat(a: seq<Node>, b: seq<Node>)
    requires NoDuplicates(a) && NoDuplicates(b) && forall n | n in a :: n !in b
    ensures NoDuplicates(a + b)
  {
    forall i, j | 0 <= i < j < |a + b| ensures (a + b)[i] != (a + b)[j] {
      if i < |a| <= j { assert a[i] in a && b[j - |a|] in b; }
    }
  }

  /** Different children have no nodes in common, and the parent is in none of them. */
  lemma KidsDisjoint(v: Node, i: nat, j: nat, n: Node)
    requires WellFormed(v) && i < j < |v.kids| && n in Nodes(v.kids[i])
    ensures n !in Nodes(v.kids[j])
  {
    if n in Nodes(v.kids[j]) {
      PathsBelow(v.kids[i], n);
      PathsBelow(v.kids[j], n);
    }
  }

  /** Listing what each child lists, in turn, repeats nothing if no child's list does. */
  lemma {:induction false} MaximalOfOnce(q: Test, v: Node, k: nat)
    requires WellFormed(v) && k <= |v.kids| && forall i | 0 <= i < k :: NoDuplicates(Maximal(q, v.kids[i]))
    ensures NoDuplicates(MaximalOf(q, v.kids[..k]))
  {
    if k == 0 {
    } else {
      MaximalOfOnce(q, v, k - 1);
      assert v.kids[..k][..k - 1] == v.kids[..k - 1];
      var a, b := MaximalOf(q, v.kids[..k - 1]), Maximal(q, v.kids[k - 1]);
      forall n | n in a ensures n !in b { MaximalApart(q, v, k - 1, n); }
      NoDuplicatesConcat(a, b);
    }
  }

  /** What earlier children list, a later one does not. */
  lemma MaximalApart(q: Test, v: Node, k: nat, n: Node)
    requires WellFormed(v) && k < |v.kids| && n in MaximalOf(q, v.kids[..k])
    ensures n !in Maximal(q, v.kids[k])
  {
    var i := FromMaximalOf(q, v.kids[..k], n);
    MaximalWithin(q, v.kids[i], n);
    KidsDisjoint(v, i, k, n);
    if n in Maximal(q, v.kids[k]) { MaximalWithin(q, v.kids[k], n); }
  }

  lemma MaximalWithin(q: Test, v: Node, n: Node)
    requires WellFormed(v) && n in Maximal(q, v)
    ensures n in Nodes(v) && n != v
  {
    InMaximal(q, v, n);
    var p :| p in Nodes(v) && n in p.kids && All(q, n) && !All(q, p);
    PathsBelow(v, p);
    ChildLonger(p, n);
    KidInNodes(p, n);
    NodesTransitive(v, p, n);
  }

  lemma {:induction false} PassingOnce(q: Test, v: Node, k: nat)
    requires WellFormed(v) && k <= |v.kids|
    ensures NoDuplicates(Passing(q, v.kids[..k]))
  {
    if k == 0 {
    } else {
      PassingOnce(q, v, k - 1);
      assert v.kids[..k][..k - 1] == v.kids[..k - 1];
      InPassing(q, v.kids[..k - 1], v.kids[k - 1]);
    }
  }

  /** No subtree is listed twice. */
  lemma {:induction false} MaximalOnce(q: Test, v: Node)
    requires WellFormed(v)
    ensures NoDuplicates(Maximal(q, v))
    decreases v
  {
    forall i | 0 <= i < |v.kids| ensures NoDuplicates(Maximal(q, v.kids[i])) { MaximalOnce(q, v.kids[i]); }
    MaximalOfOnce(q, v, |v.kids|);
    PassingOnce(q, v, |v.kids|);
    assert v.kids[..|v.kids|] == v.kids;
    forall n | n in MaximalOf(q, v.kids) ensures n !in Passing(q, v.kids) {
      InMaximalOf(q, v.kids, n);
      InPassing(q, v.kids, n);
      var i :| 0 <= i < |v.kids| && n in Maximal(q, v.kids[i]);
      MaximalWithin(q, v.kids[i], n);
      PathsBelow(v.kids[i], n);
    }
    NoDuplicatesConcat(MaximalOf(q, v.kids), Passing(q, v.kids));
  }

  // ---- Minimal overweight nodes --------------------------------------------------------------------

  function HeavyFiles(threshold: int, kids: seq<Node>): seq<Node> {
    if kids == [] then []
    else
      var n := |kids| - 1;
      HeavyFiles(threshold, kids[..n]) + if Size(kids[n]) > threshold && !kids[n].isdir then [kids[n]] else []
  }

  predicate NoHeavyKid(threshold: int, v: Node) {
    forall k | k in v.kids :: Size(k) <= threshold
  }

  /** In walk order: what the sub-directories list, then the heavy files of a heavy directory, then the directory
      itself if none of its children is heavy. */
  function Overweight(threshold: int, v: Node): seq<Node>
    decreases v, 1
  {
    OverweightOf(threshold, v.kids) +
    if v.isdir && Size(v) > threshold
    then HeavyFiles(threshold, v.kids) + if NoHeavyKid(threshold, v) then [v] else []
    else []
  }

  function OverweightOf(threshold: int, kids: seq<Node>): seq<Node>
    decreases kids, 0
  {
    if kids == [] then []
    else
      var n := |kids| - 1;
      OverweightOf(threshold, kids[..n]) + Overweight(threshold, kids[n])
  }

  lemma {:induction false} InHeavyFiles(threshold: int, kids: seq<Node>, n: Node)
    ensures n in HeavyFiles(threshold, kids) <==> n in kids && Size(n) > threshold && !n.isdir
  {
    if kids == [] {
    } else {
      InHeavyFiles(threshold, kids[..|kids| - 1], n);
      assert kids == kids[..|kids| - 1] + [kids[|kids| - 1]];
    }
  }

  lemma InOverweightOf(threshold: int, kids: seq<Node>, n: Node)
    ensures n in OverweightOf(threshold, kids) <==>
            exists i :: 0 <= i < |kids| && n in Overweight(threshold, kids[i])
  {
    if n in OverweightOf(threshold, kids) {
      var i := FromOverweightOf(threshold, kids, n);
    }
    forall i | 0 <= i < |kids| && n in Overweight(threshold, kids[i]) ensures n in OverweightOf(threshold, kids) {
      IntoOverweightOf(threshold, kids, i, n);
    }
  }

  lemma {:induction false} FromOverweightOf(threshold: int, kids: seq<Node>, n: Node) returns (i: nat)
    requires n in OverweightOf(threshold, kids)
    ensures i < |kids| && n in Overweight(threshold, kids[i])
  {
    i := |kids| - 1;
    if n !in Overweight(threshold, kids[i]) {
      i := FromOverweightOf(threshold, kids[..i], n);
    }
  }

  lemma {:induction false} IntoOverweightOf(threshold: int, kids: seq<Node>, i: nat, n: Node)
    requires i < |kids| && n in Overweight(threshold, kids[i])
    ensures n in OverweightOf(threshold, kids)
  {
    if i < |kids| - 1 {
      IntoOverweightOf(threshold, kids[..|kids| - 1], i, n);
    }
  }

  /** The list of a directory holds exactly the overweight nodes none of whose children is overweight;
      a file lists nothing itself. */
  lemma {:induction false} OverweightExactly(threshold: int, v: Node, n: Node)
    requires WellFormed(v)
    ensures n in Overweight(threshold, v) <==> v.isdir && n in Nodes(v) && Size(n) > threshold && NoHeavyKid(threshold, n)
    decreases v
  {
    InNodes(v, n);
    InHeavyFiles(threshold, v.kids, n);
    InOverweightOf(threshold, v.kids, n);
    forall i | 0 <= i < |v.kids|
      ensures n in Overweight(threshold, v.kids[i]) <==>
              v.kids[i].isdir && n in Nodes(v.kids[i]) && Size(n) > threshold && NoHeavyKid(threshold, n)
    {
      OverweightExactly(threshold, v.kids[i], n);
    }
    if n in HeavyFiles(threshold, v.kids) {
      KidInNodes(v, n);
      PathsBelow(v, n);
    }
    if n in Nodes(v) && n != v && Size(n) > threshold {
      var i :| 0 <= i < |v.kids| && n in Nodes(v.kids[i]);
      SizeMonotone(v, n);
      if !v.kids[i].isdir { InNodes(v.kids[i], n); }
    }
  }

  /** No listed node lies below another. */
  lemma OverweightAntichain(threshold: int, v: Node, m: Node, n: Node)
    requires WellFormed(v) && m in Overweight(threshold, v) && n in Overweight(threshold, v) && n in Nodes(m)
    ensures m == n
  {
    OverweightExactly(threshold, v, m);
    OverweightExactly(threshold, v, n);
    InNodes(m, n);
    if m != n {
      var i :| 0 <= i < |m.kids| && n in Nodes(m.kids[i]);
      SizeMonotone(m.kids[i], n);
    }
  }

  /** Every overweight node has a listed node at or below it. */
  lemma {:induction false} OverweightCovers(threshold: int, v: Node, m: Node) returns (n: Node)
    requires WellFormed(v) && v.isdir && m in Nodes(v) && Size(m) > threshold
    ensures n in Overweight(threshold, v) && n in Nodes(m)
    decreases m
  {
    if NoHeavyKid(threshold, m) {
      n := m;
    } else {
      var k :| k in m.kids && Size(k) > threshold;
      KidInNodes(m, k);
      NodesTransitive(v, m, k);
      n := OverweightCovers(threshold, v, k);
      NodesTransitive(m, k, n);
    }
    OverweightExactly(threshold, v, n);
  }

  lemma {:induction false} HeavyFilesOnce(threshold: int, v: Node, k: nat)
    requires WellFormed(v) && k <= |v.kids|
    ensures NoDuplicates(HeavyFiles(threshold, v.kids[..k]))
  {
    if k == 0 {
    } else {
      HeavyFilesOnce(threshold, v, k - 1);
      assert v.kids[..k][..k - 1] == v.kids[..k - 1];
      InHeavyFiles(threshold, v.kids[..k - 1], v.kids[k - 1]);
    }
  }

  lemma {:induction false} OverweightOfOnce(threshold: int, v: Node, k: nat)
    requires WellFormed(v) && k <= |v.kids|
    requires forall i | 0 <= i < k :: NoDuplicates(Overweight(threshold, v.kids[i]))
    ensures NoDuplicates(OverweightOf(threshold, v.kids[..k]))
  {
    if k == 0 {
    } else {
      OverweightOfOnce(threshold, v, k - 1);
      assert v.kids[..k][..k - 1] == v.kids[..k - 1];
      var a, b := OverweightOf(threshold, v.kids[..k - 1]), Overweight(threshold, v.kids[k - 1]);
      forall n | n in a ensures n !in b { OverweightApart(threshold, v, k - 1, n); }
      NoDuplicatesConcat(a, b);
    }
  }

  lemma OverweightApart(threshold: int, v: Node, k: nat, n: Node)
    requires WellFormed(v) && k < |v.kids| && n in OverweightOf(threshold, v.kids[..k])
    ensures n !in Overweight(threshold, v.kids[k])
  {
    var i := FromOverweightOf(threshold, v.kids[..k], n);
    OverweightExactly(threshold, v.kids[i], n);
    KidsDisjoint(v, i, k, n);
    OverweightExactly(threshold, v.kids[k], n);
  }

  /** No node is listed twice. */
  lemma {:induction false} OverweightOnce(threshold: int, v: Node)
    requires WellFormed(v)
    ensures NoDuplicates(Overweight(threshold, v))
    decreases v
  {
    forall i | 0 <= i < |v.kids| ensures NoDuplicates(Overweight(threshold, v.kids[i])) {
      OverweightOnce(threshold, v.kids[i]);
    }
    OverweightOfOnce(threshold, v, |v.kids|);
    HeavyFilesOnce(threshold, v, |v.kids|);
    assert v.kids[..|v.kids|] == v.kids;
    var a, b := OverweightOf(threshold, v.kids), HeavyFiles(threshold, v.kids);
    var c := if NoHeavyKid(threshold, v) then [v] else [];
    forall n | n in a ensures n !in b && n !in c {
      InOverweightOf(threshold, v.kids, n);
      InHeavyFiles(threshold, v.kids, n);
      var i :| 0 <= i < |v.kids| && n in Overweight(threshold, v.kids[i]);
      OverweightExactly(threshold, v.kids[i], n);
      PathsBelow(v.kids[i], n);
    }
    forall n | n in b ensures n !in c {
      InHeavyFiles(threshold, v.kids, n);
      KidInNodes(v, n);
      PathsBelow(v, n);
      ChildLonger(v, n);
    }
    NoDuplicatesConcat(b, c);
    NoDuplicatesConcat(a, b + c);
  }
}
