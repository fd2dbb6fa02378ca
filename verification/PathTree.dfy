/** The storage walk as it runs: one recursion that builds nodes, folds their totals together in place and appends
    to four shared lists (src/StorageManager/path_tree.py and src/StorageManager/path_node.py). */
module PathTree {
  import opened Jobs
  import opened VisitedTree

  /** Every field of a path node. */
  datatype Info = Info(path: Path, isdir: bool, stat: Stat, size: int, atime: int, mtime: int, ctime: int, nodes: int, files: int)

  /** What the fields should be: totals over all visited nodes at or below. */
  function Totals(v: Node): Info {
    var all := Nodes(v);
    Info(v.path, v.isdir, v.stat, SizeOf(all), Latest(all, Atime), Latest(all, Mtime), Latest(all, Ctime), |all|, FileCount(all))
  }

  function AllTotals(nodes: seq<Node>): (r: seq<Info>)
    ensures |r| == |nodes| && forall i | 0 <= i < |r| :: r[i] == Totals(nodes[i])
  {
    seq(|nodes|, i requires 0 <= i < |nodes| => Totals(nodes[i]))
  }

  class PathNode {
    const path: Path
    const isdir: bool
    const stat: Stat
    var subtreeSize: int
    var subtreeAtime: int
    var subtreeMtime: int
    var subtreeCtime: int
    var numSubtreeNodes: int
    var numSubtreeFiles: int

    ghost function Fields(): Info
      reads this
    {
      Info(path, isdir, stat, subtreeSize, subtreeAtime, subtreeMtime, subtreeCtime, numSubtreeNodes, numSubtreeFiles)
    }

    constructor (path: Path, isdir: bool, stat: Stat)
      ensures Fields() == Totals(Node(path, isdir, stat, []))
    {
      this.path, this.isdir, this.stat := path, isdir, stat;
      subtreeSize := stat.size;
      subtreeAtime, subtreeMtime, subtreeCtime := stat.atime, stat.mtime, stat.ctime;
      numSubtreeNodes := 1;
      numSubtreeFiles := if isdir then 0 else 1;
      new;
      LeafTotals(path, isdir, stat);
    }

    /** Folds a finished child into this node. */
    method Absorb(child: PathNode)
      requires child != this
      modifies this
      ensures Fields() == Absorbed(old(Fields()), child.Fields())
    {
      subtreeSize := subtreeSize + child.subtreeSize;
      if child.subtreeAtime > subtreeAtime {
        subtreeAtime := child.subtreeAtime;
      }
      if child.subtreeMtime > subtreeMtime {
        subtreeMtime := child.subtreeMtime;
      }
      if child.subtreeCtime > subtreeCtime {
        subtreeCtime := child.subtreeCtime;
      }
      numSubtreeNodes := numSubtreeNodes + child.numSubtreeNodes;
      numSubtreeFiles := numSubtreeFiles + child.numSubtreeFiles;
    }
  }

  lemma LeafTotals(path: Path, isdir: bool, stat: Stat)
    ensures Totals(Node(path, isdir, stat, [])) ==
            Info(path, isdir, stat, stat.size, stat.atime, stat.mtime, stat.ctime, 1, if isdir then 0 else 1)
  {
    var v := Node(path, isdir, stat, []);
    assert Nodes(v) == [v] && [v][..0] == [];
    assert SizeOf([v]) == SizeOf([]) + stat.size && FileCount([v]) == FileCount([]) + if isdir then 0 else 1;
  }

  function Absorbed(a: Info, c: Info): Info {
    a.(size := a.size + c.size, atime := Later(a.atime, c.atime), mtime := Later(a.mtime, c.mtime),
       ctime := Later(a.ctime, c.ctime), nodes := a.nodes + c.nodes, files := a.files + c.files)
  }

  /** Folding in one more child keeps the fields equal to the totals over all nodes below. */
  lemma AbsorbIsTotal(path: Path, stat: Stat, kids: seq<Node>, kid: Node)
    ensures Totals(Node(path, true, stat, kids + [kid])) == Absorbed(Totals(Node(path, true, stat, kids)), Totals(kid))
  {
    var before, after := Node(path, true, stat, kids), Node(path, true, stat, kids + [kid]);
    TotalsParts(before);
    TotalsParts(after);
    assert (kids + [kid])[..|kids|] == kids;
    assert NodesOf(kids + [kid]) == NodesOf(kids) + Nodes(kid);
    TotalsConcat(NodesOf(kids), Nodes(kid));
    forall clock: Clock ensures Latest(Nodes(after), clock) == Later(Latest(Nodes(before), clock), Latest(Nodes(kid), clock)) {
      LatestConcat([Node(path, true, stat, [])] + NodesOf(kids), Nodes(kid), clock);
      assert [Node(path, true, stat, [])] + NodesOf(kids) + Nodes(kid) == [Node(path, true, stat, [])] + NodesOf(kids + [kid]);
      LatestOfRoot(before, clock);
      LatestOfRoot(after, clock);
    }
  }

  /** The totals see of the root only its own stat, not its children. */
  lemma TotalsParts(v: Node)
    ensures SizeOf(Nodes(v)) == v.stat.size + SizeOf(NodesOf(v.kids))
    ensures |Nodes(v)| == 1 + |NodesOf(v.kids)|
    ensures FileCount(Nodes(v)) == (if v.isdir then 0 else 1) + FileCount(NodesOf(v.kids))
  {
    TotalsConcat([v], NodesOf(v.kids));
  }

  lemma LatestOfRoot(v: Node, clock: Clock)
    ensures Latest(Nodes(v), clock) == Latest([Node(v.path, v.isdir, v.stat, [])] + NodesOf(v.kids), clock)
  {
    LatestConcat([v], NodesOf(v.kids), clock);
    LatestConcat([Node(v.path, v.isdir, v.stat, [])], NodesOf(v.kids), clock);
  }

  // ---- The tests of the walk in terms of all nodes --------------------------------------------------

  function OlderThan(cutoff: int): Test {
    (n: Node) => n.stat.atime < cutoff
  }

  function IsDirTest(): Test {
    (n: Node) => n.isdir
  }

  lemma TestsAgree(v: Node, cutoff: int)
    ensures Totals(v).atime < cutoff <==> All(OlderThan(cutoff), v)
    ensures Totals(v).files == 0 <==> All(IsDirTest(), v)
  {
    LatestBefore(Nodes(v), Atime, cutoff);
    NoFiles(Nodes(v));
  }

  // ---- The walk ------------------------------------------------------------------------------------

  const SECONDS_PER_DAY: int := 86400

  /** `after` is `before` with nodes appended whose fields are `infos`. */
  ghost predicate Appended(before: seq<PathNode>, after: seq<PathNode>, infos: seq<Info>)
    reads after
  {
    && |after| == |before| + |infos|
    && before == after[..|before|]
    && forall i | 0 <= i < |infos| :: after[|before| + i].Fields() == infos[i]
  }

  /** The children, field for field, are the visited kids. */
  ghost predicate Mirrors(children: seq<PathNode>, kids: seq<Node>)
    reads children
  {
    |children| == |kids| && forall i | 0 <= i < |kids| :: children[i].Fields() == Totals(kids[i])
  }

  /** Appends the children whose latest access is before the cutoff. */
  method AppendOlder(list: seq<PathNode>, children: seq<PathNode>, cutoff: int, ghost kids: seq<Node>) returns (r: seq<PathNode>)
    requires Mirrors(children, kids)
    ensures Appended(list, r, AllTotals(Passing(OlderThan(cutoff), kids)))
    ensures forall n | n in r[|list|..] :: n in children
  {
    r := list;
    for i := 0 to |children|
      invariant Appended(list, r, AllTotals(Passing(OlderThan(cutoff), kids[..i])))
      invariant forall n | n in r[|list|..] :: n in children
    {
      TestsAgree(kids[i], cutoff);
      assert kids[..i + 1][..i] == kids[..i];
      if children[i].subtreeAtime < cutoff {
        r := r + [children[i]];
      }
    }
    assert kids[..|kids|] == kids;
  }

  /** Appends the children below which there are no files. */
  method AppendEmpty(list: seq<PathNode>, children: seq<PathNode>, ghost kids: seq<Node>) returns (r: seq<PathNode>)
    requires Mirrors(children, kids)
    ensures Appended(list, r, AllTotals(Passing(IsDirTest(), kids)))
    ensures forall n | n in r[|list|..] :: n in children
  {
    r := list;
    for i := 0 to |children|
      invariant Appended(list, r, AllTotals(Passing(IsDirTest(), kids[..i])))
      invariant forall n | n in r[|list|..] :: n in children
    {
      TestsAgree(kids[i], 0);
      assert kids[..i + 1][..i] == kids[..i];
      if children[i].numSubtreeFiles == 0 {
        r := r + [children[i]];
      }
    }
    assert kids[..|kids|] == kids;
  }

  /** Appends the overweight files among the children, and reports whether no child is overweight. */
  method AppendHeavyFiles(list: seq<PathNode>, children: seq<PathNode>, threshold: int, ghost kids: seq<Node>)
    returns (r: seq<PathNode>, allUnder: bool)
    requires Mirrors(children, kids)
    ensures Appended(list, r, AllTotals(HeavyFiles(threshold, kids)))
    ensures allUnder == forall i | 0 <= i < |kids| :: Size(kids[i]) <= threshold
    ensures forall n | n in r[|list|..] :: n in children
  {
    r, allUnder := list, true;
    for i := 0 to |children|
      invariant Appended(list, r, AllTotals(HeavyFiles(threshold, kids[..i])))
      invariant allUnder == forall k | 0 <= k < i :: Size(kids[k]) <= threshold
      invariant forall n | n in r[|list|..] :: n in children
    {
      assert kids[..i + 1][..i] == kids[..i];
      assert Totals(kids[i]).size == Size(kids[i]) && Totals(kids[i]).isdir == kids[i].isdir;
      if children[i].subtreeSize > threshold {
        allUnder := false;
        if !children[i].isdir {
          r := AppendNode(list, r, AllTotals(HeavyFiles(threshold, kids[..i])), children[i]);
        }
      }
    }
    assert kids[..|kids|] == kids;
  }

  method AppendNode(ghost list: seq<PathNode>, r: seq<PathNode>, ghost infos: seq<Info>, node: PathNode) returns (r': seq<PathNode>)
    requires Appended(list, r, infos)
    ensures r' == r + [node] && Appended(list, r', infos + [node.Fields()])
  {
    r' := r + [node];
  }

  /** What a directory adds to each list beyond what its sub-directories listed. */
  ghost function OwnOverweight(threshold: int, v: Node): seq<Node> {
    if v.isdir && Size(v) > threshold then HeavyFiles(threshold, v.kids) + if NoHeavyKid(threshold, v) then [v] else [] else []
  }

  ghost function OwnMaximal(q: Test, v: Node): seq<Node> {
    if All(q, v) then [] else Passing(q, v.kids)
  }

  class Tree {
    const threshold: int
    const expiry: int
    const expiryDelete: Option<int>
    var overweight: seq<PathNode>
    var expired: seq<PathNode>
    var toDelete: seq<PathNode>
    var empty: seq<PathNode>

    constructor (threshold: int, now: int, expiryDays: int, daysToDelete: Option<int>)
      ensures this.threshold == threshold && expiry == now - expiryDays * 86400
      ensures daysToDelete.None? ==> expiryDelete == None
      ensures daysToDelete.Some? ==> expiryDelete == Some(now - expiryDays * 86400 - daysToDelete.value * 86400)
      ensures overweight == expired == toDelete == empty == []
    {
      this.threshold := threshold;
      expiry := now - expiryDays * SECONDS_PER_DAY;
      expiryDelete := if daysToDelete.None? then None
                      else Some(now - (expiryDays + daysToDelete.value) * SECONDS_PER_DAY);
      overweight, expired, toDelete, empty := [], [], [], [];
    }

    /** The to-delete list of a subtree; without a delete cutoff nothing is listed. */
    ghost function DeleteList(v: Node): seq<Node> {
      if expiryDelete.None? then [] else Maximal(OlderThan(expiryDelete.value), v)
    }

    ghost function DeleteListOf(kids: seq<Node>): seq<Node> {
      if expiryDelete.None? then [] else MaximalOf(OlderThan(expiryDelete.value), kids)
    }

    ghost function OwnDelete(v: Node): seq<Node> {
      if expiryDelete.None? then [] else OwnMaximal(OlderThan(expiryDelete.value), v)
    }

    method BoundOverweight(root: PathNode, children: seq<PathNode>, ghost v: Node)
      requires v.isdir && root.Fields() == Totals(v) && Mirrors(children, v.kids)
      modifies this`overweight
      ensures Appended(old(overweight), overweight, AllTotals(OwnOverweight(threshold, v)))
      ensures forall n | n in overweight[|old(overweight)|..] :: n == root || n in children
    {
      if root.subtreeSize > threshold {
        var allUnder;
        overweight, allUnder := AppendHeavyFiles(overweight, children, threshold, v.kids);
        if allUnder {
          overweight := AppendNode(old(overweight), overweight, AllTotals(HeavyFiles(threshold, v.kids)), root);
        }
      }
    }

    method BoundExpired(root: PathNode, children: seq<PathNode>, ghost v: Node)
      requires root.Fields() == Totals(v) && Mirrors(children, v.kids)
      modifies this`expired, this`toDelete
      ensures Appended(old(expired), expired, AllTotals(OwnMaximal(OlderThan(expiry), v)))
      ensures Appended(old(toDelete), toDelete, AllTotals(OwnDelete(v)))
      ensures forall n | n in expired[|old(expired)|..] :: n in children
      ensures forall n | n in toDelete[|old(toDelete)|..] :: n in children
    {
      TestsAgree(v, expiry);
      if root.subtreeAtime >= expiry {
        expired := AppendOlder(expired, children, expiry, v.kids);
      }
      if expiryDelete.Some? {
        TestsAgree(v, expiryDelete.value);
        if root.subtreeAtime >= expiryDelete.value {
          toDelete := AppendOlder(toDelete, children, expiryDelete.value, v.kids);
        }
      }
    }

    method BoundEmpty(root: PathNode, children: seq<PathNode>, ghost v: Node)
      requires root.Fields() == Totals(v) && Mirrors(children, v.kids)
      modifies this`empty
      ensures Appended(old(empty), empty, AllTotals(OwnMaximal(IsDirTest(), v)))
      ensures forall n | n in empty[|old(empty)|..] :: n in children
    {
      TestsAgree(v, 0);
      if root.numSubtreeFiles > 0 {
        empty := AppendEmpty(empty, children, v.kids);
      }
    }

    ghost function Now(): Lists
      reads this
    {
      Lists(overweight, expired, toDelete, empty)
    }

    /** The lists a walk of `v` adds, and those walks of the children `kids` add in turn. */
    ghost function Listed(v: Node): ListedNodes {
      ListedNodes(Overweight(threshold, v), Maximal(OlderThan(expiry), v), DeleteList(v), Maximal(IsDirTest(), v))
    }

    ghost function ListedBy(kids: seq<Node>): ListedNodes {
      ListedNodes(OverweightOf(threshold, kids), MaximalOf(OlderThan(expiry), kids), DeleteListOf(kids), MaximalOf(IsDirTest(), kids))
    }

    /** The files of a directory list nothing themselves. */
    lemma ListedByFiles(kids: seq<Node>, file: Node)
      requires !file.isdir && file.kids == []
      ensures ListedBy(kids + [file]) == ListedBy(kids)
    {
      ListedByOne(kids, file);
      assert OverweightOf(threshold, []) == [];
      assert forall q: Test :: Maximal(q, file) == [];
    }

    lemma ListedByOne(kids: seq<Node>, kid: Node)
      ensures ListedBy(kids + [kid]) == ListedBy(kids).Then(Listed(kid))
    {
      assert (kids + [kid])[..|kids|] == kids;
    }

    /** What the walk of at most one child lists. */
    ghost function ListedBySome(kids: seq<Node>): ListedNodes {
      if kids == [] then ListedNodes([], [], [], []) else Listed(kids[0])
    }

    lemma ListedBySomeMore(kids: seq<Node>, more: seq<Node>)
      requires |more| <= 1
      ensures ListedBy(kids + more) == ListedBy(kids).Then(ListedBySome(more))
    {
      if more == [] {
        assert kids + more == kids;
      } else {
        assert kids + more == kids + [more[0]];
        ListedByOne(kids, more[0]);
      }
    }

    /** One sub-directory: walked, and if the walk did not give up, recorded and folded in. */
    method WalkDir(path: Path, entry: Entry, root: PathNode, children: seq<PathNode>, ghost kids: seq<Node>, dir: Child)
      returns (children': seq<PathNode>, ghost kids': seq<Node>)
      requires entry.Dir? && entry.dstat.Some? && dir in entry.listing && dir.entry.Dir?
      requires root.Fields() == Totals(Node(path, true, entry.dstat.value, kids))
      requires Mirrors(children, kids) && root !in children && !Now().Has(root)
      modifies this, root
      ensures var kid := Visit(path + [dir.name], dir.entry);
              kids' == kids + if kid.Some? then [kid.value] else []
      ensures root.Fields() == Totals(Node(path, true, entry.dstat.value, kids'))
      ensures Mirrors(children', kids') && root !in children' && forall c | c in children' :: c in children || fresh(c)
      ensures Grown(old(Now()), Now(), ListedBySome(kids'[|kids|..]))
      ensures forall n | Now().Has(n) :: old(Now()).Has(n) || fresh(n)
      decreases entry, 0
    {
      children', kids' := children, kids;
      var child := Walk(path + [dir.name], dir.entry);
      if child != null {
        assert !Now().Has(root);
        children', kids' := Take(root, children, child, path, entry.dstat.value, kids, Visit(path + [dir.name], dir.entry).value);
      }
    }

    /** The next sub-directory, after those of `kids` have grown the lists since `start`. */
    method WalkNextDir(path: Path, entry: Entry, root: PathNode, children: seq<PathNode>, ghost kids: seq<Node>, dir: Child,
                       ghost start: Lists)
      returns (children': seq<PathNode>, ghost kids': seq<Node>)
      requires entry.Dir? && entry.dstat.Some? && dir in entry.listing && dir.entry.Dir?
      requires root.Fields() == Totals(Node(path, true, entry.dstat.value, kids))
      requires Mirrors(children, kids) && root !in children && !Now().Has(root)
      requires Grown(start, Now(), ListedBy(kids))
      modifies this, root
      ensures var kid := Visit(path + [dir.name], dir.entry);
              kids' == kids + if kid.Some? then [kid.value] else []
      ensures root.Fields() == Totals(Node(path, true, entry.dstat.value, kids'))
      ensures Mirrors(children', kids') && root !in children' && forall c | c in children' :: c in children || fresh(c)
      ensures Grown(start, Now(), ListedBy(kids'))
      ensures forall n | Now().Has(n) :: old(Now()).Has(n) || fresh(n)
      decreases entry, 1
    {
      children', kids' := WalkDir(path, entry, root, children, kids, dir);
      GrownTwice(start, old(Now()), Now(), ListedBy(kids), ListedBySome(kids'[|kids|..]));
      ListedBySomeMore(kids, kids'[|kids|..]);
      assert kids + kids'[|kids|..] == kids';
    }

    /** The part of the walk that descends into the sub-directories. */
    method WalkDirs(path: Path, entry: Entry, root: PathNode) returns (children: seq<PathNode>, ghost kids: seq<Node>)
      requires entry.Dir? && entry.dstat.Some? && root.Fields() == Totals(Node(path, true, entry.dstat.value, []))
      requires !Now().Has(root)
      modifies this, root
      ensures kids == VisitDirs(path, entry, Dirs(entry.listing))
      ensures root.Fields() == Totals(Node(path, true, entry.dstat.value, kids))
      ensures Mirrors(children, kids) && forall c | c in children :: fresh(c)
      ensures Grown(old(Now()), Now(), ListedBy(kids))
      ensures forall n | Now().Has(n) :: old(Now()).Has(n) || fresh(n)
      decreases entry, 2
    {
      var dirs := Dirs(entry.listing);
      children, kids := [], [];
      ghost var start := Now();
      for i := 0 to |dirs|
        invariant kids == VisitDirs(path, entry, dirs[..i])
        invariant root.Fields() == Totals(Node(path, true, entry.dstat.value, kids))
        invariant Mirrors(children, kids) && root !in children && forall c | c in children :: fresh(c)
        invariant Grown(start, Now(), ListedBy(kids))
        invariant forall n | Now().Has(n) :: old(Now()).Has(n) || fresh(n)
      {
        assert dirs[i] in dirs && dirs[..i + 1][..i] == dirs[..i];
        children, kids := WalkNextDir(path, entry, root, children, kids, dirs[i], start);
      }
      assert dirs[..|dirs|] == dirs;
    }

    /** The part of the walk that looks at the files. */
    method WalkFiles(path: Path, entry: Entry, root: PathNode, dirNodes: seq<PathNode>, ghost dirKids: seq<Node>)
      returns (children: seq<PathNode>, ghost kids: seq<Node>)
      requires entry.Dir? && entry.dstat.Some? && root.Fields() == Totals(Node(path, true, entry.dstat.value, dirKids))
      requires Mirrors(dirNodes, dirKids) && root !in dirNodes
      modifies root
      ensures kids == dirKids + VisitFiles(path, Files(entry.listing))
      ensures root.Fields() == Totals(Node(path, true, entry.dstat.value, kids))
      ensures Mirrors(children, kids) && forall c | c in children :: c in dirNodes || fresh(c)
      ensures ListedBy(kids) == ListedBy(dirKids)
    {
      var files := Files(entry.listing);
      children, kids := dirNodes, dirKids;
      for i := 0 to |files|
        invariant kids == dirKids + VisitFiles(path, files[..i])
        invariant root.Fields() == Totals(Node(path, true, entry.dstat.value, kids))
        invariant Mirrors(children, kids) && root !in children && forall c | c in children :: c in dirNodes || fresh(c)
        invariant ListedBy(kids) == ListedBy(dirKids)
      {
        assert files[i] in files && files[..i + 1][..i] == files[..i];
        if files[i].entry.fstat.Some? {
          ghost var kid := Node(path + [files[i].name], false, files[i].entry.fstat.value, []);
          var child := new PathNode(path + [files[i].name], false, files[i].entry.fstat.value);
          ListedByFiles(kids, kid);
          children, kids := Take(root, children, child, path, entry.dstat.value, kids, kid);
        }
      }
      assert files[..|files|] == files;
    }

    method WalkChildren(path: Path, entry: Entry, root: PathNode) returns (children: seq<PathNode>, ghost v: Node)
      requires entry.Dir? && entry.dstat.Some? && entry.readable && root.Fields() == Totals(Node(path, true, entry.dstat.value, []))
      requires !Now().Has(root)
      modifies this, root
      ensures v == Visit(path, entry).value && root.Fields() == Totals(v) && Mirrors(children, v.kids)
      ensures forall c | c in children :: fresh(c)
      ensures Grown(old(Now()), Now(), ListedBy(v.kids))
      ensures forall n | Now().Has(n) :: old(Now()).Has(n) || fresh(n)
      decreases entry, 3
    {
      var dirNodes, dirKids := WalkDirs(path, entry, root);
      assert !Now().Has(root);
      ghost var kids;
      children, kids := WalkFiles(path, entry, root, dirNodes, dirKids);
      v := Node(path, true, entry.dstat.value, kids);
    }

    /** The four tests a directory applies once its children are walked. */
    method Bound(root: PathNode, children: seq<PathNode>, ghost v: Node)
      requires v.isdir && root.Fields() == Totals(v) && Mirrors(children, v.kids)
      modifies this
      ensures Grown(old(Now()), Now(), Own(v))
      ensures forall n | Now().Has(n) :: old(Now()).Has(n) || n == root || n in children
    {
      BoundOverweight(root, children, v);
      BoundExpired(root, children, v);
      BoundEmpty(root, children, v);
      GrownHas(old(Now()), Now(), Own(v), root, children);
    }

    ghost function Own(v: Node): ListedNodes {
      ListedNodes(OwnOverweight(threshold, v), OwnMaximal(OlderThan(expiry), v), OwnDelete(v), OwnMaximal(IsDirTest(), v))
    }

    lemma ListedIsBoth(v: Node)
      requires v.isdir
      ensures Listed(v) == ListedBy(v.kids).Then(Own(v))
    {
    }

    /** Walks a directory: None where its stat or listing fails, otherwise a node whose fields are the totals over
        exactly the visited nodes below, with the four lists grown by exactly what the tree lists. */
    method Walk(path: Path, entry: Entry) returns (root: PathNode?)
      requires entry.Dir?
      modifies this
      ensures root == null <==> Visit(path, entry).None?
      ensures root == null ==> Now() == old(Now())
      ensures root != null ==> fresh(root) && root.Fields() == Totals(Visit(path, entry).value)
      ensures root != null ==> Grown(old(Now()), Now(), Listed(Visit(path, entry).value))
      ensures forall n | Now().Has(n) :: old(Now()).Has(n) || fresh(n)
      decreases entry, 4
    {
      if entry.dstat.None? || !entry.readable {
        return null;
      }
      root := new PathNode(path, true, entry.dstat.value);
      var children, v := WalkChildren(path, entry, root);
      label last:
      Bound(root, children, v);
      GrownTwice(old(Now()), old@last(Now()), Now(), ListedBy(v.kids), Own(v));
      ListedIsBoth(v);
    }
  }

  /** Records a finished child and folds it into its parent. */
  method Take(root: PathNode, children: seq<PathNode>, child: PathNode, ghost path: Path, ghost stat: Stat,
              ghost kids: seq<Node>, ghost kid: Node) returns (children': seq<PathNode>, ghost kids': seq<Node>)
    requires root.Fields() == Totals(Node(path, true, stat, kids)) && child.Fields() == Totals(kid)
    requires Mirrors(children, kids) && root !in children && child != root
    modifies root
    ensures children' == children + [child] && kids' == kids + [kid] && Mirrors(children', kids')
    ensures root.Fields() == Totals(Node(path, true, stat, kids'))
  {
    AbsorbIsTotal(path, stat, kids, kid);
    children', kids' := children + [child], kids + [kid];
    root.Absorb(child);
  }

  lemma AppendedHas(before: seq<PathNode>, after: seq<PathNode>, infos: seq<Info>, n: PathNode)
    requires Appended(before, after, infos)
    ensures n in after <==> n in before || n in after[|before|..]
  {
    assert after == after[..|before|] + after[|before|..];
  }

  datatype ListedNodes = ListedNodes(overweight: seq<Node>, expired: seq<Node>, toDelete: seq<Node>, empty: seq<Node>) {
    function Then(more: ListedNodes): ListedNodes {
      ListedNodes(overweight + more.overweight, expired + more.expired, toDelete + more.toDelete, empty + more.empty)
    }
  }

  datatype Lists = Lists(overweight: seq<PathNode>, expired: seq<PathNode>, toDelete: seq<PathNode>, empty: seq<PathNode>) {
    ghost predicate Has(n: PathNode) {
      n in overweight || n in expired || n in toDelete || n in empty
    }
  }

  /** Each list grew by nodes whose fields are the totals of the listed ones. */
  ghost predicate Grown(before: Lists, after: Lists, listed: ListedNodes)
    reads after.overweight, after.expired, after.toDelete, after.empty
  {
    && Appended(before.overweight, after.overweight, AllTotals(listed.overweight))
    && Appended(before.expired, after.expired, AllTotals(listed.expired))
    && Appended(before.toDelete, after.toDelete, AllTotals(listed.toDelete))
    && Appended(before.empty, after.empty, AllTotals(listed.empty))
  }

  /** Whatever the lists hold afterwards was there before or is among the appended nodes. */
  lemma GrownHas(before: Lists, after: Lists, listed: ListedNodes, root: PathNode, children: seq<PathNode>)
    requires Grown(before, after, listed)
    requires forall n | n in after.overweight[|before.overweight|..] :: n == root || n in children
    requires forall n | n in after.expired[|before.expired|..] :: n in children
    requires forall n | n in after.toDelete[|before.toDelete|..] :: n in children
    requires forall n | n in after.empty[|before.empty|..] :: n in children
    ensures forall n | after.Has(n) :: before.Has(n) || n == root || n in children
  {
    forall n | after.Has(n) ensures before.Has(n) || n == root || n in children {
      AppendedHas(before.overweight, after.overweight, AllTotals(listed.overweight), n);
      AppendedHas(before.expired, after.expired, AllTotals(listed.expired), n);
      AppendedHas(before.toDelete, after.toDelete, AllTotals(listed.toDelete), n);
      AppendedHas(before.empty, after.empty, AllTotals(listed.empty), n);
    }
  }

  lemma AppendedTwice(a: seq<PathNode>, b: seq<PathNode>, c: seq<PathNode>, first: seq<Node>, second: seq<Node>)
    requires Appended(a, b, AllTotals(first)) && Appended(b, c, AllTotals(second))
    ensures Appended(a, c, AllTotals(first + second))
  {
    forall i | 0 <= i < |first + second| ensures c[|a| + i].Fields() == AllTotals(first + second)[i] {
      if i < |first| {
        assert c[|a| + i] == b[|a| + i];
      } else {
        assert c[|a| + i] == c[|b| + (i - |first|)];
      }
    }
  }

  lemma GrownTwice(a: Lists, b: Lists, c: Lists, first: ListedNodes, second: ListedNodes)
    requires Grown(a, b, first) && Grown(b, c, second)
    ensures Grown(a, c, first.Then(second))
  {
    AppendedTwice(a.overweight, b.overweight, c.overweight, first.overweight, second.overweight);
    AppendedTwice(a.expired, b.expired, c.expired, first.expired, second.expired);
    AppendedTwice(a.toDelete, b.toDelete, c.toDelete, first.toDelete, second.toDelete);
    AppendedTwice(a.empty, b.empty, c.empty, first.empty, second.empty);
  }

  // ---- Deletion within expiry ----------------------------------------------------------------------

  /** A node without children below `v`. */
  lemma {:induction false} LeafBelow(v: Node) returns (n: Node)
    ensures n in Nodes(v) && n.kids == []
    decreases v
  {
    if v.kids == [] {
      n := v;
    } else {
      n := LeafBelow(v.kids[0]);
    }
    InNodes(v, n);
  }

  /** Nothing is listed exactly when all nodes pass or no leaf does. */
  lemma NothingListed(q: Test, v: Node)
    requires WellFormed(v)
    ensures Maximal(q, v) == [] <==> All(q, v) || forall n | n in Nodes(v) && n.kids == [] :: !q(n)
  {
    if Maximal(q, v) != [] {
      var m := Maximal(q, v)[0];
      assert m in Maximal(q, v);
      MaximalExactly(q, v, m);
      MaximalWithin(q, v, m);
      InMaximal(q, v, m);
      var n := LeafBelow(m);
      NodesTransitive(v, m, n);
      assert q(n);
    } else if !All(q, v) {
      forall n | n in Nodes(v) && n.kids == [] ensures !q(n) {
        if q(n) {
          assert Nodes(n) == [n];
          var m := MaximalCovers(q, v, n);
        }
      }
    }
  }

  /** With a delete cutoff no later than the expiry (delete days not negative), every to-delete subtree lies in an
      expired one exactly when the root is not expired as a whole, or everything is older than the delete cutoff, or
      no file or childless directory is: otherwise an expired root empties the expired list but not the other. */
  lemma DeleteWithinExpired(v: Node, expiry: int, expiryDelete: int)
    requires WellFormed(v) && expiryDelete <= expiry
    ensures (forall d | d in Maximal(OlderThan(expiryDelete), v) ::
               exists e :: e in Maximal(OlderThan(expiry), v) && d in Nodes(e)) <==>
            !All(OlderThan(expiry), v) || All(OlderThan(expiryDelete), v) ||
            forall n | n in Nodes(v) && n.kids == [] :: n.stat.atime >= expiryDelete
    ensures forall d, n | d in Maximal(OlderThan(expiryDelete), v) && n in Nodes(d) :: n.stat.atime < expiryDelete
  {
    var aged, dead := OlderThan(expiry), OlderThan(expiryDelete);
    NothingListed(dead, v);
    forall d | d in Maximal(dead, v) ensures d in Nodes(v) && All(aged, d) && All(dead, d) {
      MaximalWithin(dead, v, d);
      InMaximal(dead, v, d);
      assert forall n :: dead(n) ==> aged(n);
    }
    if !All(aged, v) {
      forall d | d in Maximal(dead, v) ensures exists e :: e in Maximal(aged, v) && d in Nodes(e) {
        var e := MaximalCovers(aged, v, d);
      }
    } else if Maximal(dead, v) != [] {
      var d := Maximal(dead, v)[0];
      assert d in Maximal(dead, v);
      forall e ensures e !in Maximal(aged, v) { MaximalExactly(aged, v, e); }
    }
  }

  // ---- The visited tree is a tree ------------------------------------------------------------------

  lemma {:induction false} DirsKeepOrder(listing: seq<Child>)
    requires forall i, j | 0 <= i < j < |listing| :: listing[i].name != listing[j].name
    ensures forall i, j | 0 <= i < j < |Dirs(listing)| :: Dirs(listing)[i].name != Dirs(listing)[j].name
    ensures forall i, j | 0 <= i < j < |Files(listing)| :: Files(listing)[i].name != Files(listing)[j].name
    ensures forall d, f | d in Dirs(listing) && f in Files(listing) :: d.name != f.name
  {
    if listing == [] {
    } else {
      var n := |listing| - 1;
      DirsKeepOrder(listing[..n]);
      assert forall c | c in listing[..n] :: c.name != listing[n].name;
    }
  }

  function Names(children: seq<Child>): set<string> {
    set c | c in children :: c.name
  }

  lemma NamesLast(children: seq<Child>)
    requires children != [] && forall i, j | 0 <= i < j < |children| :: children[i].name != children[j].name
    ensures var n := |children| - 1;
            children[n].name !in Names(children[..n]) && Names(children) == Names(children[..n]) + {children[n].name}
  {
    assert children == children[..|children| - 1] + [children[|children| - 1]];
  }

  /** A well-formed tree one step below `path`, under one of the names. */
  ghost predicate Below(path: Path, names: set<string>, k: Node) {
    WellFormed(k) && |k.path| == |path| + 1 && path <= k.path && k.path[|path|] in names
  }

  ghost predicate KidsBelow(path: Path, names: set<string>, kids: seq<Node>) {
    && (forall i | 0 <= i < |kids| :: Below(path, names, kids[i]))
    && (forall i, j | 0 <= i < j < |kids| :: kids[i].path != kids[j].path)
  }

  lemma BelowJoin(path: Path, a: seq<Node>, some: set<string>, b: seq<Node>, others: set<string>)
    requires KidsBelow(path, some, a) && KidsBelow(path, others, b) && some !! others
    ensures KidsBelow(path, some + others, a + b)
  {
    forall i, j | 0 <= i < j < |a + b| ensures (a + b)[i].path != (a + b)[j].path {
      if i < |a| <= j {
        assert Below(path, some, a[i]) && Below(path, others, b[j - |a|]);
      }
    }
  }

  lemma {:induction false} VisitFilesShape(path: Path, files: seq<Child>)
    requires forall c | c in files :: c.entry.File?
    requires forall i, j | 0 <= i < j < |files| :: files[i].name != files[j].name
    ensures KidsBelow(path, Names(files), VisitFiles(path, files))
  {
    if files == [] {
    } else {
      var n := |files| - 1;
      VisitFilesShape(path, files[..n]);
      NamesLast(files);
      var last := VisitFiles(path, files)[|VisitFiles(path, files[..n])|..];
      BelowJoin(path, VisitFiles(path, files[..n]), Names(files[..n]), last, {files[n].name});
      assert VisitFiles(path, files) == VisitFiles(path, files[..n]) + last;
    }
  }

  lemma {:induction false} VisitDirsShape(path: Path, parent: Entry, dirs: seq<Child>)
    requires parent.Dir? && UniqueNames(parent) && forall c | c in dirs :: c in parent.listing && c.entry.Dir?
    requires forall i, j | 0 <= i < j < |dirs| :: dirs[i].name != dirs[j].name
    ensures KidsBelow(path, Names(dirs), VisitDirs(path, parent, dirs))
    decreases parent, 0, |dirs|
  {
    if dirs == [] {
    } else {
      var n := |dirs| - 1;
      VisitDirsShape(path, parent, dirs[..n]);
      NamesLast(dirs);
      assert dirs[n] in dirs && dirs[n] in parent.listing;
      var kid := Visit(path + [dirs[n].name], dirs[n].entry);
      if kid.Some? {
        VisitWellFormed(path + [dirs[n].name], dirs[n].entry);
      }
      var last := if kid.Some? then [kid.value] else [];
      BelowJoin(path, VisitDirs(path, parent, dirs[..n]), Names(dirs[..n]), last, {dirs[n].name});
    }
  }

  /** With unique names in every listing, what the walk visits is a tree with unique paths. */
  lemma {:induction false} VisitWellFormed(path: Path, entry: Entry)
    requires entry.Dir? && UniqueNames(entry) && Visit(path, entry).Some?
    ensures WellFormed(Visit(path, entry).value) && Visit(path, entry).value.path == path
    decreases entry, 1
  {
    var dirs, files := Dirs(entry.listing), Files(entry.listing);
    DirsKeepOrder(entry.listing);
    VisitDirsShape(path, entry, dirs);
    VisitFilesShape(path, files);
    BelowJoin(path, VisitDirs(path, entry, dirs), Names(dirs), VisitFiles(path, files), Names(files));
    assert forall i | 0 <= i < |Visit(path, entry).value.kids| :: Below(path, Names(dirs) + Names(files), Visit(path, entry).value.kids[i]);
  }
}
