/**
 * The program tree built from the flat list of current program rows.
 *
 * The tree is kept as an arena: `nodes[0]` is the root, every other node
 * appears after its parent in insertion order (the newer builder's
 * `nodes_by_path` list), and a node's `children` are indices into `nodes`.
 */
module ProgramTree {
  import opened Wrappers
  import opened ProgramPaths
  import opened Programs

  datatype TreeNode = TreeNode(
    record: ProgramInfo,
    children: seq<nat>,
    hasDescendantExpecting: bool)

  function Leaf(r: ProgramInfo): TreeNode
  {
    TreeNode(r, [], false)
  }

  ghost predicate StrictlyIncreasing(s: seq<nat>)
  {
    forall i, j :: 0 <= i < j < |s| ==> s[i] < s[j]
  }

  /** Node `c` is a child of some earlier node. */
  ghost predicate HasParent(nodes: seq<TreeNode>, c: nat)
  {
    exists p :: 0 <= p < c && p < |nodes| && c in nodes[p].children
  }

  /**
   * The arena is a tree rooted at index 0: children come after their parent,
   * each child list is in insertion order, and every non-root node has
   * exactly one parent.
   */
  ghost predicate ArenaShape(nodes: seq<TreeNode>)
  {
    && (forall p, j :: 0 <= p < |nodes| && 0 <= j < |nodes[p].children| ==> p < nodes[p].children[j] < |nodes|)
    && (forall p :: 0 <= p < |nodes| ==> StrictlyIncreasing(nodes[p].children))
    && (forall c :: 0 < c < |nodes| ==> HasParent(nodes, c))
    && (forall p1, p2, c :: 0 <= p1 < p2 < |nodes| && c in nodes[p1].children ==> c !in nodes[p2].children)
  }

  /**
   * Every child sits under a node whose path is the child's parent path, and
   * under the last such node inserted before the child.
   */
  ghost predicate AttachedUnderParentPath(nodes: seq<TreeNode>)
  {
    forall p, c :: 0 <= p < |nodes| && c in nodes[p].children && c < |nodes| ==>
      && nodes[p].record.path == ParentPath(nodes[c].record.path)
      && forall m :: p < m < c && m < |nodes| ==> nodes[m].record.path != nodes[p].record.path
  }

  ghost predicate RecordsAre(nodes: seq<TreeNode>, rs: seq<ProgramInfo>)
  {
    |nodes| == |rs| && forall k :: 0 <= k < |nodes| ==> nodes[k].record == rs[k]
  }

  /** `d` is a proper descendant of `a`. */
  ghost predicate Descendant(nodes: seq<TreeNode>, a: nat, d: nat)
    decreases |nodes| - a
  {
    a < |nodes| &&
    exists c: nat :: c in nodes[a].children && a < c < |nodes| && (c == d || Descendant(nodes, c, d))
  }

  /** Some proper descendant of `a` expects software effort. */
  ghost predicate ExpectingBelow(nodes: seq<TreeNode>, a: nat)
  {
    exists d: nat :: Descendant(nodes, a, d) && d < |nodes| && nodes[d].record.expects
  }

  /** Child `c` expects effort itself or has an expecting descendant. */
  ghost predicate ExpectingAtOrBelow(nodes: seq<TreeNode>, c: nat)
  {
    c < |nodes| && (nodes[c].record.expects || ExpectingBelow(nodes, c))
  }

  /** Something below `a` expects effort exactly when some child does or has something below it that does. */
  lemma ExpectingBelowUnfold(nodes: seq<TreeNode>, a: nat)
    requires ArenaShape(nodes) && a < |nodes|
    ensures ExpectingBelow(nodes, a) <==>
      exists c: nat :: c in nodes[a].children && ExpectingAtOrBelow(nodes, c)
  {
    if ExpectingBelow(nodes, a) {
      var d: nat :| Descendant(nodes, a, d) && d < |nodes| && nodes[d].record.expects;
      var c: nat :| c in nodes[a].children && a < c < |nodes| && (c == d || Descendant(nodes, c, d));
      if c != d {
        assert ExpectingBelow(nodes, c);
      }
      assert ExpectingAtOrBelow(nodes, c);
    }
    if exists c: nat :: c in nodes[a].children && ExpectingAtOrBelow(nodes, c) {
      var c: nat :| c in nodes[a].children && ExpectingAtOrBelow(nodes, c);
      assert a < c;
      if nodes[c].record.expects {
        assert Descendant(nodes, a, c);
      } else {
        var d: nat :| Descendant(nodes, c, d) && d < |nodes| && nodes[d].record.expects;
        assert Descendant(nodes, a, d);
      }
    }
  }

  // ---------------------------------------------------------------------
  // Which rows of the sorted copy end up in the tree

  /** Some row among positions `lo` .. `hi - 1` of the sorted copy has path `q`. */
  ghost predicate IsRowPath(sorted: seq<ProgramInfo>, q: Path, lo: nat, hi: nat)
  {
    exists j :: lo <= j < hi && j < |sorted| && sorted[j].path == q
  }

  /**
   * Path `q` leads back to the root: it is the root's path, or it is the
   * path of some non-root row whose own parent path leads back to the root.
   */
  ghost predicate Reaches(sorted: seq<ProgramInfo>, q: Path)
    requires |sorted| > 0
    decreases |q|
  {
    q == sorted[0].path || (q != "" && IsRowPath(sorted, q, 1, |sorted|) && Reaches(sorted, ParentPath(q)))
  }

  /** Row `j` of the sorted copy is attached to the tree (not skipped as an orphan). */
  ghost predicate Attached(sorted: seq<ProgramInfo>, j: nat)
    requires 1 <= j < |sorted|
  {
    Reaches(sorted, ParentPath(sorted[j].path))
  }

  /** The root and the attached rows among the first `i` rows, in order. */
  ghost function KeptUpTo(sorted: seq<ProgramInfo>, i: nat): (r: seq<ProgramInfo>)
    requires 1 <= i <= |sorted|
    ensures 1 <= |r| <= i && r[0] == sorted[0]
  {
    if i == 1 then [sorted[0]]
    else KeptUpTo(sorted, i - 1) + (if Attached(sorted, i - 1) then [sorted[i - 1]] else [])
  }

  /** The skipped (orphan) rows among the first `i` rows, in order. */
  ghost function DroppedUpTo(sorted: seq<ProgramInfo>, i: nat): seq<ProgramInfo>
    requires 1 <= i <= |sorted|
  {
    if i == 1 then []
    else DroppedUpTo(sorted, i - 1) + (if Attached(sorted, i - 1) then [] else [sorted[i - 1]])
  }

  /** The rows of the tree, in insertion order. */
  ghost function Kept(sorted: seq<ProgramInfo>): seq<ProgramInfo>
    requires |sorted| > 0
  {
    KeptUpTo(sorted, |sorted|)
  }

  /** The rows skipped as orphans, in sorted order. */
  ghost function Dropped(sorted: seq<ProgramInfo>): seq<ProgramInfo>
    requires |sorted| > 0
  {
    DroppedUpTo(sorted, |sorted|)
  }

  /** Every row after the root is either attached or skipped: nodes + orphans = rows. */
  lemma {:induction false} KeptAndDroppedPartition(sorted: seq<ProgramInfo>, i: nat)
    requires 1 <= i <= |sorted|
    ensures |KeptUpTo(sorted, i)| + |DroppedUpTo(sorted, i)| == i
  {
    if i > 1 {
      KeptAndDroppedPartition(sorted, i - 1);
    }
  }

  /** Path `q` is registered in the builder's map before it looks at row `i`. */
  ghost predicate KeptPath(sorted: seq<ProgramInfo>, i: nat, q: Path)
    requires 1 <= i <= |sorted|
  {
    q == sorted[0].path || exists j :: 1 <= j < i && Attached(sorted, j) && sorted[j].path == q
  }

  /** Row `i` adds its path to the registered paths exactly when it is attached. */
  lemma KeptPathStep(sorted: seq<ProgramInfo>, i: nat, q: Path)
    requires 1 <= i < |sorted|
    ensures KeptPath(sorted, i + 1, q) <==> KeptPath(sorted, i, q) || (Attached(sorted, i) && q == sorted[i].path)
  {
    if KeptPath(sorted, i + 1, q) && q != sorted[0].path {
      var j :| 1 <= j < i + 1 && Attached(sorted, j) && sorted[j].path == q;
    }
    if KeptPath(sorted, i, q) && q != sorted[0].path {
      var j :| 1 <= j < i && Attached(sorted, j) && sorted[j].path == q;
    }
    if Attached(sorted, i) && q == sorted[i].path {
      assert 1 <= i < i + 1 && Attached(sorted, i) && sorted[i].path == q;
    }
  }

  /**
   * In a depth-sorted copy, looking the parent path up among the paths
   * registered so far decides exactly whether the row reaches the root:
   * every row a parent path could name is shallower, hence already seen.
   */
  lemma ParentKnownIffAttached(sorted: seq<ProgramInfo>, i: nat)
    requires SortedByDepth(sorted) && 1 <= i < |sorted|
    ensures KeptPath(sorted, i, ParentPath(sorted[i].path)) <==> Attached(sorted, i)
  {
    var q := ParentPath(sorted[i].path);
    if KeptPath(sorted, i, q) {
      KnownParentAttached(sorted, i);
    }
    if Attached(sorted, i) && q != sorted[0].path {
      AttachedParentKnown(sorted, i);
    }
  }

  lemma KnownParentAttached(sorted: seq<ProgramInfo>, i: nat)
    requires 1 <= i < |sorted|
    requires KeptPath(sorted, i, ParentPath(sorted[i].path))
    ensures Attached(sorted, i)
  {
    var q := ParentPath(sorted[i].path);
    if q != sorted[0].path {
      var j :| 1 <= j < i && Attached(sorted, j) && sorted[j].path == q;
      assert ParentPath("") == "";
      assert q != "";
      assert IsRowPath(sorted, q, 1, |sorted|);
    }
  }

  lemma AttachedParentKnown(sorted: seq<ProgramInfo>, i: nat)
    requires SortedByDepth(sorted) && 1 <= i < |sorted|
    requires Attached(sorted, i) && ParentPath(sorted[i].path) != sorted[0].path
    ensures KeptPath(sorted, i, ParentPath(sorted[i].path))
  {
    var p := sorted[i].path;
    var q := ParentPath(p);
    assert q != "" && IsRowPath(sorted, q, 1, |sorted|) && Reaches(sorted, ParentPath(q));
    var j :| 1 <= j < |sorted| && sorted[j].path == q;
    assert '.' in p;
    ParentPathDepth(p);
    assert j < i;
    assert Attached(sorted, j);
  }

  // ---------------------------------------------------------------------
  // The attach loop shared by both builders

  /** Every non-root row of the sorted copy is strictly deeper than the root. */
  ghost predicate SingleShallowest(sorted: seq<ProgramInfo>)
  {
    forall j :: 1 <= j < |sorted| ==> Depth(sorted[j].path) > Depth(sorted[0].path)
  }

  /** The path-to-node map names, for every path it holds, the last node with that path. */
  ghost predicate IndexesLastNode(nodes: seq<TreeNode>, index: map<Path, nat>)
  {
    && (forall q :: q in index ==> index[q] < |nodes| && nodes[index[q]].record.path == q)
    && (forall q, m :: q in index && index[q] < m < |nodes| ==> nodes[m].record.path != q)
    && (forall k :: 0 <= k < |nodes| ==> nodes[k].record.path in index)
  }

  /** Appends a leaf for `rec` as the last child of node `p`. */
  function AddChild(nodes: seq<TreeNode>, p: nat, rec: ProgramInfo): (r: seq<TreeNode>)
    requires p < |nodes|
    ensures |r| == |nodes| + 1
  {
    nodes[p := nodes[p].(children := nodes[p].children + [|nodes|])] + [Leaf(rec)]
  }

  lemma AddChildShape(nodes: seq<TreeNode>, p: nat, rec: ProgramInfo)
    requires ArenaShape(nodes) && p < |nodes|
    ensures ArenaShape(AddChild(nodes, p, rec))
  {
    var r := AddChild(nodes, p, rec);
    var c := |nodes|;
    assert forall a :: 0 <= a < |nodes| && a != p ==> r[a].children == nodes[a].children;
    assert r[p].children == nodes[p].children + [c];
    assert r[c].children == [];
    assert c !in nodes[p].children;
    forall k | 0 < k < |r| ensures HasParent(r, k) {
      if k == c {
        assert c in r[p].children;
      } else {
        assert HasParent(nodes, k);
        var a :| 0 <= a < k && a < |nodes| && k in nodes[a].children;
        assert k in r[a].children;
      }
    }
  }

  ghost predicate Unflagged(nodes: seq<TreeNode>)
  {
    forall k :: 0 <= k < |nodes| ==> !nodes[k].hasDescendantExpecting
  }

  /** The builder's map holds exactly the paths registered before row `i`. */
  ghost predicate IndexIsKept(sorted: seq<ProgramInfo>, i: nat, index: map<Path, nat>)
    requires 1 <= i <= |sorted|
  {
    forall q :: q in index <==> KeptPath(sorted, i, q)
  }

  /** No node is shallower than the root, nor deeper than row `i`. */
  ghost predicate DepthBounds(sorted: seq<ProgramInfo>, i: nat, nodes: seq<TreeNode>)
    requires 1 <= i <= |sorted|
  {
    && (forall k :: 0 <= k < |nodes| ==> Depth(sorted[0].path) <= Depth(nodes[k].record.path))
    && (i < |sorted| ==> forall k :: 0 <= k < |nodes| ==> Depth(nodes[k].record.path) <= Depth(sorted[i].path))
  }

  /** Node `k` is deeper than the root and a child of the node the map holds at its parent path. */
  ghost predicate IndexedUnderParent(sorted: seq<ProgramInfo>, nodes: seq<TreeNode>, index: map<Path, nat>, k: nat)
    requires |sorted| > 0 && k < |nodes|
  {
    && Depth(nodes[k].record.path) > Depth(sorted[0].path)
    && ParentPath(nodes[k].record.path) in index
    && index[ParentPath(nodes[k].record.path)] < |nodes|
    && k in nodes[index[ParentPath(nodes[k].record.path)]].children
  }

  /** With a single shallowest row, every non-root node is indexed under its parent. */
  ghost predicate ParentsIndexed(sorted: seq<ProgramInfo>, nodes: seq<TreeNode>, index: map<Path, nat>)
    requires |sorted| > 0
  {
    SingleShallowest(sorted) ==>
      forall k :: 0 < k < |nodes| ==> IndexedUnderParent(sorted, nodes, index, k)
  }

  /** The invariant of the attach loop before it looks at row `i`. */
  ghost predicate AttachInv(sorted: seq<ProgramInfo>, i: nat, nodes: seq<TreeNode>, index: map<Path, nat>)
  {
    && 1 <= i <= |sorted|
    && ArenaShape(nodes) && AttachedUnderParentPath(nodes)
    && RecordsAre(nodes, KeptUpTo(sorted, i))
    && IndexesLastNode(nodes, index)
    && IndexIsKept(sorted, i, index)
    && Unflagged(nodes)
    && DepthBounds(sorted, i, nodes)
    && ParentsIndexed(sorted, nodes, index)
  }

  /**
   * Attaches every row after the root, in sorted order, under the node
   * registered at its parent path, skipping rows whose parent path is
   * unknown; each attached row is registered at its own path.
   * `legacy` selects the older split/pop/join parent-path helper.
   */
  method AttachRecords(sorted: seq<ProgramInfo>, legacy: bool) returns (nodes: seq<TreeNode>, index: map<Path, nat>)
    requires |sorted| > 0 && SortedByDepth(sorted)
    ensures ArenaShape(nodes) && AttachedUnderParentPath(nodes)
    ensures RecordsAre(nodes, Kept(sorted))
    ensures IndexesLastNode(nodes, index)
    ensures Unflagged(nodes)
    ensures forall q :: q in index ==> Depth(q) >= Depth(sorted[0].path)
    ensures ParentsIndexed(sorted, nodes, index)
  {
    var root := sorted[0];
    nodes := [Leaf(root)];
    index := map[root.path := 0];
    var i := 1;
    InitialAttachInv(sorted);
    while i < |sorted|
      invariant AttachInv(sorted, i, nodes, index)
    {
      nodes, index := AttachRow(sorted, i, nodes, index, legacy);
      i := i + 1;
    }
    AttachDone(sorted, nodes, index);
  }

  /**
   * One step of the attach loop: row `i` goes under the node registered at
   * its parent path, or is skipped when that path is unknown.
   */
  method AttachRow(sorted: seq<ProgramInfo>, i: nat, nodes: seq<TreeNode>, index: map<Path, nat>, legacy: bool)
    returns (nodes': seq<TreeNode>, index': map<Path, nat>)
    requires SortedByDepth(sorted) && AttachInv(sorted, i, nodes, index) && i < |sorted|
    ensures AttachInv(sorted, i + 1, nodes', index')
  {
    var rec := sorted[i];
    var parentPath := ParentPathFor(rec.path, legacy);
    if parentPath in index {
      AttachStep(sorted, i, nodes, index, parentPath);
      nodes' := AddChild(nodes, index[parentPath], rec);
      index' := index[rec.path := |nodes|];
    } else {
      SkipStep(sorted, i, nodes, index, parentPath);
      nodes', index' := nodes, index;
    }
  }

  /** The parent path as the selected builder computes it; both helpers agree. */
  method ParentPathFor(p: Path, legacy: bool) returns (r: Path)
    ensures r == ParentPath(p)
  {
    if legacy {
      r := LegacyParentPath(p);
      LegacyParentPathIsParentPath(p);
    } else {
      r := ParentPath(p);
    }
  }

  lemma AttachDone(sorted: seq<ProgramInfo>, nodes: seq<TreeNode>, index: map<Path, nat>)
    requires |sorted| > 0 && AttachInv(sorted, |sorted|, nodes, index)
    ensures RecordsAre(nodes, Kept(sorted))
    ensures forall q :: q in index ==> Depth(q) >= Depth(sorted[0].path)
  {
    forall q | q in index ensures Depth(q) >= Depth(sorted[0].path) {
      assert nodes[index[q]].record.path == q;
    }
  }

  lemma InitialAttachInv(sorted: seq<ProgramInfo>)
    requires |sorted| > 0 && SortedByDepth(sorted)
    ensures AttachInv(sorted, 1, [Leaf(sorted[0])], map[sorted[0].path := 0])
  {
    var nodes := [Leaf(sorted[0])];
    var index := map[sorted[0].path := 0];
    forall q ensures q in index <==> KeptPath(sorted, 1, q) {
    }
    if 1 < |sorted| {
      assert Depth(sorted[0].path) <= Depth(sorted[1].path);
    }
  }

  /** Skipping an orphan keeps the attach invariant. */
  lemma SkipStep(sorted: seq<ProgramInfo>, i: nat, nodes: seq<TreeNode>, index: map<Path, nat>, parent: Path)
    requires SortedByDepth(sorted) && AttachInv(sorted, i, nodes, index) && i < |sorted|
    requires parent == ParentPath(sorted[i].path) && parent !in index
    ensures AttachInv(sorted, i + 1, nodes, index)
  {
    ParentKnownIffAttached(sorted, i);
    assert KeptUpTo(sorted, i + 1) == KeptUpTo(sorted, i);
    forall q ensures q in index <==> KeptPath(sorted, i + 1, q) {
      KeptPathStep(sorted, i, q);
    }
    if i + 1 < |sorted| {
      assert Depth(sorted[i].path) <= Depth(sorted[i + 1].path);
    }
  }

  /** Attaching row `i` under the node at its parent path keeps the attach invariant. */
  lemma AttachStep(sorted: seq<ProgramInfo>, i: nat, nodes: seq<TreeNode>, index: map<Path, nat>, parent: Path)
    requires SortedByDepth(sorted) && AttachInv(sorted, i, nodes, index) && i < |sorted|
    requires parent == ParentPath(sorted[i].path) && parent in index
    ensures AttachInv(sorted, i + 1,
      AddChild(nodes, index[parent], sorted[i]),
      index[sorted[i].path := |nodes|])
  {
    var rec := sorted[i];
    var p := index[parent];
    var nodes' := AddChild(nodes, p, rec);
    var index' := index[rec.path := |nodes|];
    AddChildShape(nodes, p, rec);
    AddChildUnderParent(nodes, index, rec);
    AddChildIndex(nodes, index, p, rec);
    ParentKnownIffAttached(sorted, i);
    assert KeptUpTo(sorted, i + 1) == KeptUpTo(sorted, i) + [rec];
    AddChildRecords(nodes, p, rec, KeptUpTo(sorted, i));
    forall q ensures q in index' <==> KeptPath(sorted, i + 1, q) {
      KeptPathStep(sorted, i, q);
    }
    AddChildDepthBounds(sorted, i, nodes, p);
    AddChildParentsIndexed(sorted, i, nodes, index);
  }

  lemma AddChildUnderParent(nodes: seq<TreeNode>, index: map<Path, nat>, rec: ProgramInfo)
    requires ArenaShape(nodes) && AttachedUnderParentPath(nodes) && IndexesLastNode(nodes, index)
    requires ParentPath(rec.path) in index
    ensures AttachedUnderParentPath(AddChild(nodes, index[ParentPath(rec.path)], rec))
  {
    var p := index[ParentPath(rec.path)];
    var c := |nodes|;
    var nodes' := AddChild(nodes, p, rec);
    forall a, b | 0 <= a < |nodes'| && b in nodes'[a].children && b < |nodes'|
      ensures nodes'[a].record.path == ParentPath(nodes'[b].record.path)
      ensures forall m :: a < m < b && m < |nodes'| ==> nodes'[m].record.path != nodes'[a].record.path
    {
      if a != p || b != c {
        assert a < c;
        assert b in nodes[a].children;
        assert b < c;
        assert nodes'[a] == nodes[a] || a == p;
      }
    }
  }

  lemma AddChildRecords(nodes: seq<TreeNode>, p: nat, rec: ProgramInfo, rs: seq<ProgramInfo>)
    requires RecordsAre(nodes, rs) && Unflagged(nodes) && p < |nodes|
    ensures RecordsAre(AddChild(nodes, p, rec), rs + [rec]) && Unflagged(AddChild(nodes, p, rec))
  {
  }

  lemma AddChildIndex(nodes: seq<TreeNode>, index: map<Path, nat>, p: nat, rec: ProgramInfo)
    requires IndexesLastNode(nodes, index) && p < |nodes|
    ensures IndexesLastNode(AddChild(nodes, p, rec), index[rec.path := |nodes|])
  {
  }

  lemma AddChildDepthBounds(sorted: seq<ProgramInfo>, i: nat, nodes: seq<TreeNode>, p: nat)
    requires SortedByDepth(sorted) && 1 <= i < |sorted| && p < |nodes|
    requires DepthBounds(sorted, i, nodes)
    ensures DepthBounds(sorted, i + 1, AddChild(nodes, p, sorted[i]))
  {
    assert Depth(sorted[0].path) <= Depth(sorted[i].path);
    if i + 1 < |sorted| {
      assert Depth(sorted[i].path) <= Depth(sorted[i + 1].path);
    }
  }

  lemma AddChildParentsIndexed(sorted: seq<ProgramInfo>, i: nat, nodes: seq<TreeNode>, index: map<Path, nat>)
    requires 1 <= i < |sorted| && IndexesLastNode(nodes, index)
    requires DepthBounds(sorted, i, nodes) && ParentsIndexed(sorted, nodes, index)
    requires ParentPath(sorted[i].path) in index
    ensures ParentsIndexed(sorted,
      AddChild(nodes, index[ParentPath(sorted[i].path)], sorted[i]),
      index[sorted[i].path := |nodes|])
  {
    var nodes' := AddChild(nodes, index[ParentPath(sorted[i].path)], sorted[i]);
    var index' := index[sorted[i].path := |nodes|];
    if SingleShallowest(sorted) {
      forall k | 0 < k < |nodes'| ensures IndexedUnderParent(sorted, nodes', index', k) {
        if k < |nodes| {
          OldNodeStillIndexed(sorted, i, nodes, index, k);
        } else {
          NewNodeIndexed(sorted, i, nodes, index);
        }
      }
    }
  }

  lemma OldNodeStillIndexed(sorted: seq<ProgramInfo>, i: nat, nodes: seq<TreeNode>, index: map<Path, nat>, k: nat)
    requires 1 <= i < |sorted| && IndexesLastNode(nodes, index) && SingleShallowest(sorted)
    requires DepthBounds(sorted, i, nodes) && ParentsIndexed(sorted, nodes, index)
    requires ParentPath(sorted[i].path) in index && 0 < k < |nodes|
    ensures IndexedUnderParent(sorted,
      AddChild(nodes, index[ParentPath(sorted[i].path)], sorted[i]),
      index[sorted[i].path := |nodes|], k)
  {
    var path := nodes[k].record.path;
    assert IndexedUnderParent(sorted, nodes, index, k);
    var pk := index[ParentPath(path)];
    assert k in nodes[pk].children;
    DeepPathHasDot(path);
    assert Depth(path) <= Depth(sorted[i].path);
    assert ParentPath(path) != sorted[i].path;
  }

  lemma NewNodeIndexed(sorted: seq<ProgramInfo>, i: nat, nodes: seq<TreeNode>, index: map<Path, nat>)
    requires 1 <= i < |sorted| && IndexesLastNode(nodes, index) && SingleShallowest(sorted)
    requires ParentPath(sorted[i].path) in index
    ensures IndexedUnderParent(sorted,
      AddChild(nodes, index[ParentPath(sorted[i].path)], sorted[i]),
      index[sorted[i].path := |nodes|], |nodes|)
  {
    var rec := sorted[i];
    assert Depth(rec.path) > Depth(sorted[0].path);
    DeepPathHasDot(rec.path);
    assert rec.path != ParentPath(rec.path);
  }

  // ---------------------------------------------------------------------
  // The newer builder

  datatype TreeResult =
    | NoPrograms
    | MultipleRoots(candidates: nat)
    | Built(nodes: seq<TreeNode>)

  /** In a sorted copy, a leading run of `n` rows at the first row's depth is all rows of that depth. */
  lemma {:induction false} LeadingRunIsAtDepth(s: seq<ProgramInfo>, d: nat, n: nat)
    requires SortedByDepth(s) && n <= |s|
    requires forall k :: 0 <= k < |s| ==> Depth(s[k].path) >= d
    requires forall k :: 0 <= k < n ==> Depth(s[k].path) == d
    requires n == |s| || Depth(s[n].path) != d
    ensures |AtDepth(s, d)| == n
  {
    if n > 0 {
      LeadingRunIsAtDepth(s[1..], d, n - 1);
    }
  }

  /**
   * Counts the leading rows of the sorted copy that share the first row's
   * depth, stopping at the first deeper row: the number of root candidates.
   */
  method CountRootCandidates(sorted: seq<ProgramInfo>) returns (count: nat)
    requires |sorted| > 0 && SortedByDepth(sorted)
    ensures count == |AtDepth(sorted, Depth(sorted[0].path))|
    ensures 1 <= count <= |sorted|
    ensures count == 1 <==> SingleShallowest(sorted)
  {
    var firstDepth := Depth(sorted[0].path);
    count := 0;
    var j := 0;
    while j < |sorted|
      invariant 0 <= j <= |sorted| && count == j
      invariant forall k :: 0 <= k < j ==> Depth(sorted[k].path) == firstDepth
    {
      if Depth(sorted[j].path) == firstDepth {
        count := count + 1;
      } else {
        break;
      }
      j := j + 1;
    }
    LeadingRunIsAtDepth(sorted, firstDepth, count);
  }

  /** The map and the arena as the reverse pass expects them after the attach loop. */
  ghost predicate ReadyForFlags(nodes: seq<TreeNode>, index: map<Path, nat>)
  {
    && ArenaShape(nodes) && Unflagged(nodes)
    && (forall q :: q in index ==> index[q] < |nodes| && nodes[index[q]].record.path == q)
    && (forall k :: 0 < k < |nodes| ==> UnderIndexedParent(nodes, index, k))
    && (|nodes| > 0 ==> ParentPath(nodes[0].record.path) == "" || ParentPath(nodes[0].record.path) !in index)
  }

  /** Non-root node `k` has a non-empty path and is a child of the node held at its parent path. */
  ghost predicate UnderIndexedParent(nodes: seq<TreeNode>, index: map<Path, nat>, k: nat)
    requires k < |nodes|
  {
    && nodes[k].record.path != ""
    && ParentPath(nodes[k].record.path) in index
    && index[ParentPath(nodes[k].record.path)] < |nodes|
    && k in nodes[index[ParentPath(nodes[k].record.path)]].children
  }

  /** Some child of `a` at index `i` or later expects effort or has something below it that does. */
  ghost predicate ExpectingChildFrom(nodes: seq<TreeNode>, a: nat, i: nat)
    requires a < |nodes|
  {
    exists c: nat :: i <= c && c in nodes[a].children && ExpectingAtOrBelow(nodes, c)
  }

  /** The flags once the reverse pass has visited the nodes from `i` on. */
  ghost predicate FlagsFrom(nodes: seq<TreeNode>, out: seq<TreeNode>, i: nat)
    requires |out| == |nodes|
  {
    forall a :: 0 <= a < |out| ==>
      (out[a].hasDescendantExpecting <==> nodes[a].record.path != "" && ExpectingChildFrom(nodes, a, i))
  }

  /** Same records and children, flags aside. */
  ghost predicate SameShape(nodes: seq<TreeNode>, out: seq<TreeNode>)
  {
    |out| == |nodes| &&
    forall k :: 0 <= k < |out| ==> out[k].record == nodes[k].record && out[k].children == nodes[k].children
  }

  lemma ChildFromStep(nodes: seq<TreeNode>, a: nat, i: nat)
    requires a < |nodes|
    ensures ExpectingChildFrom(nodes, a, i) <==>
      ExpectingChildFrom(nodes, a, i + 1) || (i in nodes[a].children && ExpectingAtOrBelow(nodes, i))
  {
    if ExpectingChildFrom(nodes, a, i) {
      var c: nat :| i <= c && c in nodes[a].children && ExpectingAtOrBelow(nodes, c);
      if c > i {
        assert ExpectingChildFrom(nodes, a, i + 1);
      }
    }
    if ExpectingChildFrom(nodes, a, i + 1) {
      var c: nat :| i + 1 <= c && c in nodes[a].children && ExpectingAtOrBelow(nodes, c);
      assert i <= c;
    }
  }

  /** All children of `a` come after it, so counting them from `a + 1` misses none. */
  lemma ChildFromParent(nodes: seq<TreeNode>, a: nat)
    requires ArenaShape(nodes) && a < |nodes|
    ensures ExpectingChildFrom(nodes, a, a + 1) <==> ExpectingBelow(nodes, a)
  {
    ExpectingBelowUnfold(nodes, a);
    if ExpectingBelow(nodes, a) {
      var c: nat :| c in nodes[a].children && ExpectingAtOrBelow(nodes, c);
      assert a < c;
    }
  }

  /** One step of the reverse pass. */
  lemma FlagStep(nodes: seq<TreeNode>, index: map<Path, nat>, out: seq<TreeNode>, out': seq<TreeNode>, i: nat)
    requires ReadyForFlags(nodes, index) && i < |nodes|
    requires SameShape(nodes, out) && FlagsFrom(nodes, out, i + 1)
    requires var pp := ParentPath(nodes[i].record.path);
      out' == if (nodes[i].record.expects || out[i].hasDescendantExpecting) && pp != "" && pp in index
        then out[index[pp] := out[index[pp]].(hasDescendantExpecting := true)]
        else out
    ensures SameShape(nodes, out') && FlagsFrom(nodes, out', i)
  {
    var pp := ParentPath(nodes[i].record.path);
    if i > 0 {
      assert UnderIndexedParent(nodes, index, i);
      var p := index[pp];
      assert i in nodes[p].children;
      assert forall a :: 0 <= a < |nodes| && a != p ==> i !in nodes[a].children;
      ChildFromParent(nodes, i);
      FlagUpdate(nodes, out, out', i, if pp != "" then Some(p) else None);
    } else {
      assert forall a :: 0 <= a < |nodes| ==> i !in nodes[a].children;
      FlagUpdate(nodes, out, out', i, None);
    }
  }

  /**
   * The step at node `i`, given the one flagged node whose child `i` is
   * (none when `i` is nobody's child, or its parent is the root with path "").
   */
  lemma FlagUpdate(nodes: seq<TreeNode>, out: seq<TreeNode>, out': seq<TreeNode>, i: nat, parent: Option<nat>)
    requires i < |nodes| && SameShape(nodes, out) && FlagsFrom(nodes, out, i + 1)
    requires forall a :: 0 <= a < |nodes| && nodes[a].record.path != "" ==> (i in nodes[a].children <==> parent == Some(a))
    requires parent.Some? ==>
      && parent.value < |nodes| && nodes[parent.value].record.path != ""
      && (out[i].hasDescendantExpecting <==> ExpectingChildFrom(nodes, i, i + 1))
    requires out' == if parent.Some? && (nodes[i].record.expects || out[i].hasDescendantExpecting)
      then out[parent.value := out[parent.value].(hasDescendantExpecting := true)]
      else out
    ensures SameShape(nodes, out') && FlagsFrom(nodes, out', i)
  {
    forall a | 0 <= a < |nodes| {
      ChildFromStep(nodes, a, i);
    }
  }

  /**
   * Reverse pass over the insertion order: a node that expects effort, or
   * already has an expecting descendant, marks the node registered at its
   * parent path. Afterwards a node's flag says that some proper descendant
   * expects effort; a root whose path is "" is never marked, because the
   * pass skips the parent path "".
   */
  method PropagateDescendantFlags(nodes: seq<TreeNode>, index: map<Path, nat>) returns (out: seq<TreeNode>)
    requires ReadyForFlags(nodes, index)
    ensures SameShape(nodes, out)
    ensures forall a :: 0 <= a < |out| ==>
      (out[a].hasDescendantExpecting <==> nodes[a].record.path != "" && ExpectingBelow(nodes, a))
  {
    out := nodes;
    var i := |nodes|;
    assert forall a :: 0 <= a < |nodes| ==> !ExpectingChildFrom(nodes, a, |nodes|);
    while i > 0
      invariant 0 <= i <= |nodes|
      invariant SameShape(nodes, out) && FlagsFrom(nodes, out, i)
    {
      i := i - 1;
      ghost var before := out;
      var node := out[i];
      if node.record.expects || node.hasDescendantExpecting {
        var parentPath := ParentPath(node.record.path);
        if parentPath != "" && parentPath in index {
          out := out[index[parentPath] := out[index[parentPath]].(hasDescendantExpecting := true)];
        }
      }
      FlagStep(nodes, index, before, out, i);
    }
    forall a | 0 <= a < |out|
      ensures out[a].hasDescendantExpecting <==> nodes[a].record.path != "" && ExpectingBelow(nodes, a)
    {
      ChildFromParent(nodes, a);
      forall c: nat | c in nodes[a].children ensures a + 1 <= c {
      }
    }
  }

  /** The attach loop's result meets what the reverse pass expects when the root is the only shallowest row. */
  lemma AttachedReadyForFlags(sorted: seq<ProgramInfo>, nodes: seq<TreeNode>, index: map<Path, nat>)
    requires |sorted| > 0 && SingleShallowest(sorted)
    requires ArenaShape(nodes) && Unflagged(nodes) && RecordsAre(nodes, Kept(sorted))
    requires IndexesLastNode(nodes, index) && ParentsIndexed(sorted, nodes, index)
    requires forall q :: q in index ==> Depth(q) >= Depth(sorted[0].path)
    ensures ReadyForFlags(nodes, index)
  {
    forall k | 0 < k < |nodes| ensures UnderIndexedParent(nodes, index, k) {
      assert IndexedUnderParent(sorted, nodes, index, k);
      DeepPathHasDot(nodes[k].record.path);
    }
    var rootPath := nodes[0].record.path;
    assert rootPath == sorted[0].path;
    if '.' in rootPath {
      ParentPathDepth(rootPath);
    }
  }

  lemma DescendantSameShape(n1: seq<TreeNode>, n2: seq<TreeNode>, a: nat, d: nat)
    requires SameShape(n1, n2)
    ensures Descendant(n1, a, d) <==> Descendant(n2, a, d)
    decreases |n1| - a
  {
    if a < |n1| {
      forall c: nat | c in n1[a].children && a < c < |n1| {
        DescendantSameShape(n1, n2, c, d);
      }
    }
  }

  /** The reverse pass changes flags only, so the tree it leaves has the same shape and descendants. */
  lemma SameShapeKeepsTree(sorted: seq<ProgramInfo>, n1: seq<TreeNode>, n2: seq<TreeNode>)
    requires |sorted| > 0 && SameShape(n1, n2)
    requires ArenaShape(n1) && AttachedUnderParentPath(n1) && RecordsAre(n1, Kept(sorted))
    ensures ArenaShape(n2) && AttachedUnderParentPath(n2) && RecordsAre(n2, Kept(sorted))
    ensures forall a: nat :: ExpectingBelow(n1, a) <==> ExpectingBelow(n2, a)
  {
    forall c | 0 < c < |n2| ensures HasParent(n2, c) {
      assert HasParent(n1, c);
      var p :| 0 <= p < c && p < |n1| && c in n1[p].children;
      assert c in n2[p].children;
    }
    forall a: nat ensures ExpectingBelow(n1, a) <==> ExpectingBelow(n2, a) {
      forall d: nat {
        DescendantSameShape(n1, n2, a, d);
      }
    }
  }

  /** The tree as built: a single-rooted arena of the kept rows, each child under its parent path. */
  ghost predicate WellBuilt(sorted: seq<ProgramInfo>, nodes: seq<TreeNode>)
    requires |sorted| > 0
  {
    ArenaShape(nodes) && AttachedUnderParentPath(nodes) && RecordsAre(nodes, Kept(sorted))
  }

  /**
   * The newer builder. No rows gives no tree; more than one row at the
   * shallowest depth is refused with the number of candidates; otherwise
   * the first shallowest row (in the order of the list) is the root, the
   * other rows are attached in depth order, orphans are skipped, and every
   * node whose path is not "" is flagged exactly when some proper
   * descendant expects software effort.
   */
  method BuildProgramTree(records: seq<ProgramInfo>) returns (result: TreeResult)
    ensures result.NoPrograms? <==> records == []
    ensures result.MultipleRoots? <==> records != [] && |Shallowest(records)| > 1
    ensures result.MultipleRoots? ==> result.candidates == |Shallowest(records)|
    ensures result.Built? ==>
      && records != []
      && WellBuilt(SortByDepth(records), result.nodes)
      && result.nodes[0].record == Shallowest(records)[0]
      && forall a :: 0 <= a < |result.nodes| ==>
        (result.nodes[a].hasDescendantExpecting <==>
          result.nodes[a].record.path != "" && ExpectingBelow(result.nodes, a))
  {
    if records == [] {
      return NoPrograms;
    }
    var programData := SortByDepth(records);
    SortedHeadIsFirstShallowest(records);
    SortByDepthIsStable(records, Depth(programData[0].path));
    var count := CountRootCandidates(programData);
    if count > 1 {
      return MultipleRoots(count);
    }
    var attached, index := AttachRecords(programData, false);
    AttachedReadyForFlags(programData, attached, index);
    var nodes := PropagateDescendantFlags(attached, index);
    SameShapeKeepsTree(programData, attached, nodes);
    return Built(nodes);
  }
}
