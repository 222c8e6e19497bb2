/**
 * Worked examples of the coupling-graph adapter on small measurements: what
 * the groups, leaves and edges are for a few concrete inputs.
 */
module Scenarios {
  import opened Wrappers
  import opened JsStrings
  import opened JsSort
  import opened GraphAdapter

  /** The 2 x 2 measurement of two files in directory `x`. */
  function TwoFiles(): CouplingResult {
    CouplingResult(["x/a", "x/b"], [[0, 5], [2, 0]], [3, 4], [50, 60], None)
  }

  /** The parts of `a + "/" + b` for slash-free `a` and `b`. */
  lemma SplitTwo(a: string, b: string)
    requires '/' !in a && '/' !in b
    ensures Split(a + "/" + b, '/') == [a, b]
    ensures GroupPath(a + "/" + b) == a && LastSegment(a + "/" + b) == b
  {
    SplitFirstPart(a, b, '/');
    SplitWithoutSeparator(b, '/');
  }

  lemma PathsOfTwoFiles()
    ensures GroupPath("x/a") == "x" && GroupPath("x/b") == "x"
    ensures LastSegment("x/a") == "a" && LastSegment("x/b") == "b" && LastSegment("x") == "x"
  {
    SplitTwo("x", "a");
    SplitTwo("x", "b");
    assert "x" + "/" + "a" == "x/a" && "x" + "/" + "b" == "x/b";
    SplitWithoutSeparator("x", '/');
  }

  /** A strictly sorted list whose elements all have one path has at most one element. */
  lemma AtMostOne(groups: seq<Node>, d: string)
    requires forall i, j :: 0 <= i < j < |groups| ==> Less(groups[i].dimension, groups[j].dimension)
    requires forall i :: 0 <= i < |groups| ==> groups[i].dimension == d
    ensures |groups| <= 1
  {
    if |groups| > 1 {
      assert Less(groups[0].dimension, groups[1].dimension);
      LessIrreflexive(d);
    }
  }

  /** The group list of a single path: group `G0` for it, with the given label and no parent. */
  lemma OnlyGroup(dimensions: seq<string>, groups: seq<Node>, d: string)
    requires IsGroupList(dimensions, groups) && |dimensions| > 0
    requires forall k :: 0 <= k < |dimensions| ==> GroupPath(dimensions[k]) == d
    ensures groups == [Node("G0", LastSegment(d), d, None, GroupNode)]
  {
    var paths := GroupPaths(dimensions);
    forall i | 0 <= i < |groups| ensures groups[i].dimension == d {
      assert groups[i].dimension in paths;
      var k :| 0 <= k < |paths| && paths[k] == groups[i].dimension;
      assert paths[k] == GroupPath(dimensions[k]);
    }
    AtMostOne(groups, d);
    PathHasGroup(dimensions, groups, 0);
    SmallGroupIds();
    GroupShape(dimensions, groups);
    assert !IsCandidate(groups[0], d);
  }

  /** Two dimensions in the same directory give one group. */
  lemma TwoInOneGroup(dimensions: seq<string>, groups: seq<Node>, d: string)
    requires IsGroupList(dimensions, groups) && |dimensions| == 2
    requires GroupPath(dimensions[0]) == d && GroupPath(dimensions[1]) == d
    ensures groups == [Node("G0", LastSegment(d), d, None, GroupNode)]
  {
    forall k | 0 <= k < |dimensions| ensures GroupPath(dimensions[k]) == d {
      assert k == 0 || k == 1;
    }
    OnlyGroup(dimensions, groups, d);
  }

  /** Both files share the one group `x`, which has no parent. */
  lemma TwoFilesGroups(groups: seq<Node>)
    requires IsGroupList(TwoFiles().dimensions, groups)
    ensures groups == [Node("G0", "x", "x", None, GroupNode)]
  {
    PathsOfTwoFiles();
    TwoInOneGroup(TwoFiles().dimensions, groups, "x");
  }

  /** Both leaves point to group `G0`; the summaries carry the off-diagonal sums. */
  lemma TwoFilesLeaves(groups: seq<Node>, nodes: seq<Node>)
    requires IsGroupList(TwoFiles().dimensions, groups)
    requires IsLeafList(TwoFiles(), groups, Structure, nodes)
    ensures nodes == [
      Node("0", "a", "x/a", Some("G0"), LeafNode(StructureSummary(3, 50, 5, 2))),
      Node("1", "b", "x/b", Some("G0"), LeafNode(StructureSummary(4, 60, 2, 5)))]
  {
    TwoFilesGroups(groups);
    PathsOfTwoFiles();
    var g := groups[0];
    assert "x/a"[..2] == "x/" && "x/b"[..2] == "x/";
    assert IsCandidate(g, "x/a") && IsCandidate(g, "x/b");
    SmallGroupIds();
  }

  /** Threshold 1 keeps the two off-diagonal cells, in row-major order. */
  lemma TwoFilesEdges()
    ensures Edges(TwoFiles().matrix, 1) == [Edge("0", "1", 5), Edge("1", "0", 2)]
  {
    var m := TwoFiles().matrix;
    assert RowCells(m, 1, 0, 2) == [Cell(0, 1)];
    assert RowCells(m, 1, 1, 2) == [Cell(1, 0)];
    assert MatrixCells(m, 1, 2) == [Cell(0, 1), Cell(1, 0)];
    SmallGroupIds();
  }

  /** Threshold 6 is above every weight: no edges. */
  lemma TwoFilesNoEdges()
    ensures Edges(TwoFiles().matrix, 6) == []
  {
    var m := TwoFiles().matrix;
    assert RowCells(m, 6, 0, 2) == [];
    assert RowCells(m, 6, 1, 2) == [];
    assert MatrixCells(m, 6, 2) == [];
  }

  /**
   * A single dimension without a slash: `createGroups` still builds one group,
   * with the empty path, and the leaf is not placed inside it.
   */
  lemma SlashlessDimension(groups: seq<Node>)
    requires IsGroupList(["m"], groups)
    ensures groups == [Node("G0", "", "", None, GroupNode)]
    ensures FindParent(groups, "m") == None
  {
    PathDecomposition("m");
    PathDecomposition("");
    OnlyGroup(["m"], groups, "");
    assert !IsCandidate(groups[0], "m");
  }

  /**
   * Nested directories `a` and `a/b`: the group `a/b` sits in `a`, and `a`
   * (like the empty group that the slash-less `a` contributes) has no parent.
   */
  lemma NestedGroups(groups: seq<Node>)
    requires IsGroupList(["a", "a/b", "a/b/c"], groups)
    ensures groups == [
      Node("G0", "", "", None, GroupNode),
      Node("G1", "a", "a", None, GroupNode),
      Node("G2", "b", "a/b", Some("G1"), GroupNode)]
  {
    NestedPaths();
    NestedMembership(groups);
    NestedGroupsOrder(groups);
    NestedParents(groups);
    SmallGroupIds();
    GroupShape(["a", "a/b", "a/b/c"], groups);
  }

  /** A member of a group list is determined by its index, its path and the list. */
  lemma GroupShape(dims: seq<string>, groups: seq<Node>)
    requires IsGroupList(dims, groups)
    ensures forall i :: 0 <= i < |groups| ==>
      groups[i] == Node(GroupId(i), LastSegment(groups[i].dimension), groups[i].dimension,
                        ParentId(FindParent(groups, groups[i].dimension)), GroupNode)
  {
  }

  lemma SmallGroupIds()
    ensures NumberToString(0) == "0" && NumberToString(1) == "1" && NumberToString(2) == "2"
    ensures GroupId(0) == "G0" && GroupId(1) == "G1" && GroupId(2) == "G2"
  {
    assert NumberToString(0) == "0";
    assert NumberToString(1) == "1";
    assert NumberToString(2) == "2";
  }

  /** Each group has one of the three paths, and each of the three has a group. */
  lemma NestedMembership(groups: seq<Node>)
    requires IsGroupList(["a", "a/b", "a/b/c"], groups)
    ensures forall i :: 0 <= i < |groups| ==> IsNestedPath(groups[i].dimension)
    ensures exists i :: 0 <= i < |groups| && groups[i].dimension == ""
    ensures exists i :: 0 <= i < |groups| && groups[i].dimension == "a"
    ensures exists i :: 0 <= i < |groups| && groups[i].dimension == "a/b"
  {
    NestedPaths();
    ThreeDimensions(["a", "a/b", "a/b/c"], groups, "", "a", "a/b");
  }

  /** The group path of dimension k has a group. */
  lemma PathHasGroup(dims: seq<string>, groups: seq<Node>, k: nat)
    requires IsGroupList(dims, groups) && k < |dims|
    ensures exists i :: 0 <= i < |groups| && groups[i].dimension == GroupPath(dims[k])
  {
    var p := GroupPath(dims[k]);
    var i :| 0 <= i < |groups| && groups[i].dimension == p;
  }

  /** Every group path among those of three dimensions is one of their three paths. */
  lemma AmongThree(dims: seq<string>, groups: seq<Node>, p0: string, p1: string, p2: string)
    requires forall i :: 0 <= i < |groups| ==> groups[i].dimension in GroupPaths(dims)
    requires |dims| == 3
    requires GroupPath(dims[0]) == p0 && GroupPath(dims[1]) == p1 && GroupPath(dims[2]) == p2
    ensures forall i :: 0 <= i < |groups| ==>
      groups[i].dimension == p0 || groups[i].dimension == p1 || groups[i].dimension == p2
  {
    var paths := GroupPaths(dims);
    forall i | 0 <= i < |groups|
      ensures groups[i].dimension == p0 || groups[i].dimension == p1 || groups[i].dimension == p2
    {
      assert groups[i].dimension in paths;
      var k :| 0 <= k < |paths| && paths[k] == groups[i].dimension;
      assert k == 0 || k == 1 || k == 2;
      assert paths[k] == GroupPath(dims[k]);
    }
  }

  /** The group paths of three dimensions are exactly the paths of the groups. */
  lemma ThreeDimensions(dims: seq<string>, groups: seq<Node>, p0: string, p1: string, p2: string)
    requires IsGroupList(dims, groups) && |dims| == 3
    requires GroupPath(dims[0]) == p0 && GroupPath(dims[1]) == p1 && GroupPath(dims[2]) == p2
    ensures forall i :: 0 <= i < |groups| ==>
      groups[i].dimension == p0 || groups[i].dimension == p1 || groups[i].dimension == p2
    ensures exists i :: 0 <= i < |groups| && groups[i].dimension == p0
    ensures exists i :: 0 <= i < |groups| && groups[i].dimension == p1
    ensures exists i :: 0 <= i < |groups| && groups[i].dimension == p2
  {
    AmongThree(dims, groups, p0, p1, p2);
    PathHasGroup(dims, groups, 0);
    PathHasGroup(dims, groups, 1);
    PathHasGroup(dims, groups, 2);
  }

  predicate IsNestedPath(p: string) {
    p == "" || p == "a" || p == "a/b"
  }

  lemma NestedPaths()
    ensures GroupPath("a") == "" && GroupPath("a/b") == "a" && GroupPath("a/b/c") == "a/b"
    ensures LastSegment("") == "" && LastSegment("a") == "a" && LastSegment("a/b") == "b"
  {
    PathDecomposition("a");
    PathDecomposition("");
    SplitTwo("a", "b");
    assert "a" + "/" + "b" == "a/b";
    SplitFirstPart("a", "b/c", '/');
    SplitTwo("b", "c");
    assert "a" + "/" + "b/c" == "a/b/c" && "b" + "/" + "c" == "b/c";
    var parts := Split("a/b/c", '/');
    assert parts == ["a", "b", "c"];
    assert parts[..2] == ["a", "b"];
    assert Join(["a", "b"], '/') == "a" + "/" + Join(["b"], '/');
  }

  /** Which of the three groups is the parent of which. */
  lemma NestedParents(groups: seq<Node>)
    requires |groups| == 3 && groups[0].dimension == "" && groups[1].dimension == "a" && groups[2].dimension == "a/b"
    ensures FindParent(groups, "") == None && FindParent(groups, "a") == None
    ensures FindParent(groups, "a/b") == Some(groups[1])
  {
    var g0, g1, g2 := groups[0], groups[1], groups[2];
    assert '/' !in "a";
    forall k | 0 <= k < 3 ensures !IsCandidate(groups[k], "") && !IsCandidate(groups[k], "a") {
      SlashlessHasNoCandidate(groups[k], "");
      SlashlessHasNoCandidate(groups[k], "a");
    }
    assert "a/b"[..2] == "a/" && "a/b"[..1] == "a";
    assert !IsCandidate(g0, "a/b") && IsCandidate(g1, "a/b") && !IsCandidate(g2, "a/b");
    var k :| FirstLongest(groups, "a/b", k) && groups[k] == FindParent(groups, "a/b").value;
  }

  /** The three paths, each present once, in sorted order. */
  lemma NestedGroupsOrder(groups: seq<Node>)
    requires forall i, j :: 0 <= i < j < |groups| ==> Less(groups[i].dimension, groups[j].dimension)
    requires forall i :: 0 <= i < |groups| ==> IsNestedPath(groups[i].dimension)
    requires exists i :: 0 <= i < |groups| && groups[i].dimension == ""
    requires exists i :: 0 <= i < |groups| && groups[i].dimension == "a"
    requires exists i :: 0 <= i < |groups| && groups[i].dimension == "a/b"
    ensures |groups| == 3 && groups[0].dimension == "" && groups[1].dimension == "a" && groups[2].dimension == "a/b"
  {
    var i0 :| 0 <= i0 < |groups| && groups[i0].dimension == "";
    var i1 :| 0 <= i1 < |groups| && groups[i1].dimension == "a";
    var i2 :| 0 <= i2 < |groups| && groups[i2].dimension == "a/b";
    assert Less("", "a") && Less("a", "a/b");
    IndexOrder(groups, i0, i1);
    IndexOrder(groups, i1, i2);
    OneOfThree(groups, 0, i0, i1, i2);
    OneOfThree(groups, 1, i0, i1, i2);
    OneOfThree(groups, 2, i0, i1, i2);
    OneOfThree(groups, |groups| - 1, i0, i1, i2);
  }

  /** In a strictly sorted list, a smaller element sits at a smaller index. */
  lemma IndexOrder(groups: seq<Node>, i: nat, j: nat)
    requires forall a, b :: 0 <= a < b < |groups| ==> Less(groups[a].dimension, groups[b].dimension)
    requires i < |groups| && j < |groups| && Less(groups[i].dimension, groups[j].dimension)
    ensures i < j
  {
    LessIrreflexive(groups[i].dimension);
    if j < i {
      LessAsymmetric(groups[j].dimension, groups[i].dimension);
    }
  }

  /** Every index holds one of the three paths, so it is one of their indices. */
  lemma OneOfThree(groups: seq<Node>, j: nat, i0: nat, i1: nat, i2: nat)
    requires forall a, b :: 0 <= a < b < |groups| ==> Less(groups[a].dimension, groups[b].dimension)
    requires forall i :: 0 <= i < |groups| ==> IsNestedPath(groups[i].dimension)
    requires j < |groups| && i0 < |groups| && i1 < |groups| && i2 < |groups|
    requires groups[i0].dimension == "" && groups[i1].dimension == "a" && groups[i2].dimension == "a/b"
    ensures j == i0 || j == i1 || j == i2
  {
    var d := groups[j].dimension;
    var k := if d == "" then i0 else if d == "a" then i1 else i2;
    assert groups[k].dimension == d;
    if j != k {
      LessIrreflexive(d);
    }
  }
}
