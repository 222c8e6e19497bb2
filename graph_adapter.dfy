/**
 * The coupling-graph adapter: turns a coupling measurement (slash-delimited
 * dimension names and an N x N matrix of connection counts) into the nodes and
 * edges of a compound graph.  Leaves are the dimensions, with ids "0".."N-1";
 * groups are the distinct directory parts of the names, with ids "G0".."G(k-1)"
 * in sorted order; each node points to its nearest enclosing group.
 */
module GraphAdapter {
  import opened Wrappers
  import opened JsStrings
  import opened JsSort

  /** `'structure'` or any other graph type; it only chooses display text. */
  datatype GraphType = Structure | Change

  /** The measurement the adapter consumes. */
  datatype CouplingResult = CouplingResult(
    dimensions: seq<string>,
    matrix: seq<seq<int>>,
    fileCount: seq<int>,
    cohesion: seq<int>,
    sumOfCoupling: Option<seq<int>>)

  datatype Edge = Edge(source: string, target: string, weight: int)

  /** What a leaf's tooltip reports, by graph type. */
  datatype Summary =
    | StructureSummary(fileCount: int, cohesion: int, outgoing: int, incoming: int)
    | ChangeSummary(commits: int, sumOfCoupling: int)

  /** A group node carries the class `group`; a leaf carries its summary. */
  datatype NodeKind = GroupNode | LeafNode(summary: Summary)

  /**
   * The `data` of a graph node: `caption` is the source's `data.label` (the
   * displayed text; `label` is a Dafny keyword), and `parent` is unset when
   * `findParent` finds nothing.
   */
  datatype Node = Node(id: string, caption: string, dimension: string, parent: Option<string>, kind: NodeKind)

  predicate Square(m: seq<seq<int>>) {
    forall i :: 0 <= i < |m| ==> |m[i]| == |m|
  }

  /** Every per-dimension array is aligned with `dimensions` and the matrix is N x N. */
  predicate WellFormed(r: CouplingResult) {
    && |r.matrix| == |r.dimensions|
    && Square(r.matrix)
    && |r.fileCount| == |r.dimensions|
    && |r.cohesion| == |r.dimensions|
    && (r.sumOfCoupling.Some? ==> |r.sumOfCoupling.value| == |r.dimensions|)
  }

  // ---------------------------------------------------------------------------
  // Path parts of a dimension name

  /**
   * `name.split('/').at(-1) || ''`: the last segment holds no slash, and a
   * name without a slash is its own last segment.
   */
  function LastSegment(name: string): (r: string)
    ensures '/' !in r
    ensures '/' !in name ==> r == name
  {
    var parts := Split(name, '/');
    assert '/' !in name ==> parts == [name] by {
      if '/' !in name { SplitWithoutSeparator(name, '/'); }
    }
    parts[|parts| - 1]
  }

  /**
   * `parts.slice(0, parts.length - 1).join('/')` where `parts = name.split('/')`:
   * a name without a slash has the empty group path.
   */
  function GroupPath(name: string): (r: string)
    ensures '/' !in name ==> r == ""
  {
    var parts := Split(name, '/');
    assert '/' !in name ==> parts == [name] by {
      if '/' !in name { SplitWithoutSeparator(name, '/'); }
    }
    Join(parts[..|parts| - 1], '/')
  }

  /** A name with a slash is its group path, a slash and its last segment. */
  lemma PathDecomposition(name: string)
    ensures '/' in name ==> name == GroupPath(name) + "/" + LastSegment(name)
  {
    var parts := Split(name, '/');
    var n := |parts|;
    if '/' in name {
      JoinSplit(name, '/');
      assert n > 1;
      var init, last := parts[..n - 1], parts[n - 1];
      assert parts == init + [last];
      JoinSnoc(init, last, '/');
    }
  }

  // ---------------------------------------------------------------------------
  // findParent

  /**
   * `name.startsWith(cp.data.dimension + '/')`: the group's path is a proper
   * prefix of the name and the name has a slash right after it.
   */
  predicate IsCandidate(g: Node, name: string): (b: bool)
    ensures b <==> |g.dimension| < |name| && name[..|g.dimension|] == g.dimension && name[|g.dimension|] == '/'
  {
    var d := g.dimension;
    assert |d| < |name| ==> name[..|d| + 1] == name[..|d|] + [name[|d|]];
    StartsWith(name, d + "/")
  }

  /** `groups.filter(cp => name.startsWith(cp.data.dimension + '/'))`. */
  function Candidates(groups: seq<Node>, name: string): (c: seq<Node>)
    ensures forall n :: n in c ==> IsCandidate(n, name)
    ensures forall k :: 0 <= k < |groups| && IsCandidate(groups[k], name) ==> groups[k] in c
  {
    if groups == [] then []
    else
      assert forall k :: 1 <= k < |groups| ==> groups[k] == groups[1..][k - 1];
      (if IsCandidate(groups[0], name) then [groups[0]] else []) + Candidates(groups[1..], name)
  }

  /**
   * `reduce((prev, curr) => curr.dimension.length > prev.dimension.length ? curr : prev, best)`:
   * the start or one of the elements, with a path no shorter than the start's
   * or any element's.
   */
  function Longest(cands: seq<Node>, best: Node): (r: Node)
    ensures r == best || r in cands
    ensures |best.dimension| <= |r.dimension|
    ensures forall c :: c in cands ==> |c.dimension| <= |r.dimension|
    decreases |cands|
  {
    if cands == [] then best
    else
      assert forall c :: c in cands ==> c == cands[0] || c in cands[1..];
      Longest(cands[1..], if |cands[0].dimension| > |best.dimension| then cands[0] else best)
  }

  /**
   * `groups[k]` is a candidate parent of `name`, no candidate has a longer
   * path, and every candidate before it has a strictly shorter one.
   */
  ghost predicate FirstLongest(groups: seq<Node>, name: string, k: int) {
    && 0 <= k < |groups|
    && IsCandidate(groups[k], name)
    && (forall j :: 0 <= j < |groups| && IsCandidate(groups[j], name) ==>
          |groups[j].dimension| <= |groups[k].dimension|)
    && (forall j :: 0 <= j < k && IsCandidate(groups[j], name) ==>
          |groups[j].dimension| < |groups[k].dimension|)
  }

  lemma FirstLongestShift(groups: seq<Node>, name: string, k: nat)
    requires |groups| > 0 && FirstLongest(groups[1..], name, k)
    requires IsCandidate(groups[0], name) ==> |groups[0].dimension| < |groups[1..][k].dimension|
    ensures FirstLongest(groups, name, k + 1)
  {
    assert forall j :: 1 <= j < |groups| ==> groups[j] == groups[1..][j - 1];
  }

  /** The fold over the candidates either keeps its start or ends on the first longest candidate. */
  lemma {:induction false} LongestOfCandidates(groups: seq<Node>, name: string, best: Node)
    ensures var r := Longest(Candidates(groups, name), best);
      || (r == best && forall j :: 0 <= j < |groups| && IsCandidate(groups[j], name) ==>
            |groups[j].dimension| <= |best.dimension|)
      || (exists k :: |r.dimension| > |best.dimension| && FirstLongest(groups, name, k) && groups[k] == r)
    decreases |groups|
  {
    if groups != [] {
      var g0, rest := groups[0], groups[1..];
      assert forall j :: 1 <= j < |groups| ==> groups[j] == rest[j - 1];
      var r := Longest(Candidates(groups, name), best);
      if !IsCandidate(g0, name) {
        assert Candidates(groups, name) == Candidates(rest, name);
        LongestOfCandidates(rest, name, best);
        if r != best || exists j :: 0 <= j < |groups| && IsCandidate(groups[j], name) && |groups[j].dimension| > |best.dimension| {
          var k :| |r.dimension| > |best.dimension| && FirstLongest(rest, name, k) && rest[k] == r;
          FirstLongestShift(groups, name, k);
        }
      } else {
        var c := Candidates(groups, name);
        assert c == [g0] + Candidates(rest, name);
        assert c[1..] == Candidates(rest, name);
        var best' := if |g0.dimension| > |best.dimension| then g0 else best;
        assert r == Longest(Candidates(rest, name), best');
        LongestOfCandidates(rest, name, best');
        if r == best' && forall j :: 0 <= j < |rest| && IsCandidate(rest[j], name) ==> |rest[j].dimension| <= |best'.dimension| {
          if |g0.dimension| > |best.dimension| {
            assert FirstLongest(groups, name, 0);
          }
        } else {
          var k :| |r.dimension| > |best'.dimension| && FirstLongest(rest, name, k) && rest[k] == r;
          FirstLongestShift(groups, name, k);
        }
      }
    }
  }

  /** The first element of the filter is the first candidate in `groups`. */
  lemma {:induction false} FirstCandidate(groups: seq<Node>, name: string)
    requires |Candidates(groups, name)| > 0
    ensures exists i :: (0 <= i < |groups| && groups[i] == Candidates(groups, name)[0]
      && IsCandidate(groups[i], name)
      && forall j :: 0 <= j < i ==> !IsCandidate(groups[j], name))
  {
    if !IsCandidate(groups[0], name) {
      FirstCandidate(groups[1..], name);
      var i :| 0 <= i < |groups[1..]| && groups[1..][i] == Candidates(groups[1..], name)[0]
        && IsCandidate(groups[1..][i], name)
        && forall j :: 0 <= j < i ==> !IsCandidate(groups[1..][j], name);
      assert forall j :: 1 <= j < |groups| ==> groups[j] == groups[1..][j - 1];
      assert groups[i + 1] == Candidates(groups, name)[0];
    }
  }

  /**
   * `findParent(groups, name)`: `None` exactly when no group is a candidate
   * parent; otherwise the first of the candidates with the longest path.
   */
  function FindParent(groups: seq<Node>, name: string): (r: Option<Node>)
    ensures r.None? <==> forall k :: 0 <= k < |groups| ==> !IsCandidate(groups[k], name)
    ensures r.Some? ==> exists k :: FirstLongest(groups, name, k) && groups[k] == r.value
  {
    var cands := Candidates(groups, name);
    if |cands| > 0 then
      FirstCandidate(groups, name);
      LongestOfCandidates(groups, name, cands[0]);
      Some(Longest(cands, cands[0]))
    else
      None
  }

  /** The id a resolved parent contributes: `node.data.parent = parent.data.id`. */
  function ParentId(p: Option<Node>): Option<string>
  {
    if p.Some? then Some(p.value.id) else None
  }

  lemma {:induction false} CandidatesAppend(a: seq<Node>, b: seq<Node>, name: string)
    ensures Candidates(a + b, name) == Candidates(a, name) + Candidates(b, name)
    decreases |a|
  {
    if a != [] {
      var head := if IsCandidate(a[0], name) then [a[0]] else [];
      assert (a + b)[0] == a[0] && (a + b)[1..] == a[1..] + b;
      assert Candidates(a + b, name) == head + Candidates(a[1..] + b, name);
      CandidatesAppend(a[1..], b, name);
      assert Candidates(a, name) == head + Candidates(a[1..], name);
    } else {
      assert a + b == b;
    }
  }

  lemma {:induction false} NoCandidates(groups: seq<Node>, name: string)
    requires forall k :: 0 <= k < |groups| ==> !IsCandidate(groups[k], name)
    ensures Candidates(groups, name) == []
  {
    if |Candidates(groups, name)| > 0 {
      FirstCandidate(groups, name);
    }
  }

  /**
   * In a list of groups in strictly increasing path order, a candidate parent
   * of group i comes before it and has a shorter path.
   */
  lemma CandidateComesEarlier(groups: seq<Node>, i: nat, k: nat)
    requires i < |groups| && k < |groups|
    requires forall a, b :: 0 <= a < b < |groups| ==> Less(groups[a].dimension, groups[b].dimension)
    requires IsCandidate(groups[k], groups[i].dimension)
    ensures k < i && |groups[k].dimension| < |groups[i].dimension|
  {
    var name, d := groups[i].dimension, groups[k].dimension;
    assert name[..|d|] == (d + "/")[..|d|] == d;
    ProperPrefixIsLess(d, name);
    if k == i {
      LessIrreflexive(name);
    } else if k > i {
      LessAsymmetric(name, d);
    }
  }

  /**
   * In a list of groups in strictly increasing path order, no group at or after
   * index i is a candidate parent of group i, so searching only the groups
   * before it finds the same parent as searching all of them.
   */
  lemma IncrementalParent(groups: seq<Node>, i: nat)
    requires i < |groups|
    requires forall a, b :: 0 <= a < b < |groups| ==> Less(groups[a].dimension, groups[b].dimension)
    ensures FindParent(groups[..i], groups[i].dimension) == FindParent(groups, groups[i].dimension)
  {
    var name := groups[i].dimension;
    var tail := groups[i..];
    forall j | 0 <= j < |tail| ensures !IsCandidate(tail[j], name) {
      TailNotCandidate(groups, i, j);
    }
    NoCandidates(tail, name);
    assert groups == groups[..i] + tail;
    CandidatesAppend(groups[..i], tail, name);
    SameCandidatesSameParent(groups[..i], groups, name);
  }

  lemma TailNotCandidate(groups: seq<Node>, i: nat, j: nat)
    requires i + j < |groups|
    requires forall a, b :: 0 <= a < b < |groups| ==> Less(groups[a].dimension, groups[b].dimension)
    ensures !IsCandidate(groups[i..][j], groups[i].dimension)
  {
    assert groups[i..][j] == groups[i + j];
    if IsCandidate(groups[i + j], groups[i].dimension) {
      CandidateComesEarlier(groups, i, i + j);
    }
  }

  /** `findParent` depends on the groups only through the candidates they offer. */
  lemma SameCandidatesSameParent(a: seq<Node>, b: seq<Node>, name: string)
    requires Candidates(a, name) == Candidates(b, name)
    ensures FindParent(a, name) == FindParent(b, name)
  {
  }


  // ---------------------------------------------------------------------------
  // findGroups

  /** The group path of every dimension, in order (with repetitions). */
  function GroupPaths(labels: seq<string>): seq<string> {
    seq(|labels|, k requires 0 <= k < |labels| => GroupPath(labels[k]))
  }

  /** The position of the first occurrence of `x` in `s`. */
  function FirstIndex(s: seq<string>, x: string): (k: nat)
    requires x in s
    ensures k < |s| && s[k] == x && x !in s[..k]
  {
    if s[0] == x then 0
    else
      var k := FirstIndex(s[1..], x);
      assert s[..k + 1] == [s[0]] + s[1..][..k];
      k + 1
  }

  lemma FirstIndexUnique(s: seq<string>, x: string, k: nat)
    requires k < |s| && s[k] == x && x !in s[..k]
    ensures FirstIndex(s, x) == k
  {
  }

  /**
   * `groups` holds each element of `paths` exactly once, in the order in which
   * the elements first occur in `paths`.
   */
  ghost predicate FirstOccurrences(paths: seq<string>, groups: seq<string>) {
    && Distinct(groups)
    && (forall x :: x in groups <==> x in paths)
    && (forall i, j :: 0 <= i < j < |groups| ==> FirstIndex(paths, groups[i]) < FirstIndex(paths, groups[j]))
  }

  /** Appending to a sequence keeps the first occurrence of what it already holds. */
  lemma FirstIndexAppend(s: seq<string>, p: string, y: string)
    requires y in s
    ensures FirstIndex(s + [p], y) == FirstIndex(s, y)
  {
    var k := FirstIndex(s, y);
    assert (s + [p])[..k] == s[..k];
    FirstIndexUnique(s + [p], y, k);
  }

  /** A new element first occurs at the end. */
  lemma FirstIndexNew(s: seq<string>, p: string)
    requires p !in s
    ensures FirstIndex(s + [p], p) == |s|
  {
    assert (s + [p])[..|s|] == s;
    FirstIndexUnique(s + [p], p, |s|);
  }

  /** Reading one more path keeps the first occurrences, adding the path if it is new. */
  lemma FirstOccurrencesStep(paths: seq<string>, groups: seq<string>, p: string)
    requires FirstOccurrences(paths, groups)
    ensures FirstOccurrences(paths + [p], if p in groups then groups else groups + [p])
  {
    var paths' := paths + [p];
    var groups' := if p in groups then groups else groups + [p];
    forall i | 0 <= i < |groups|
      ensures groups'[i] == groups[i] && FirstIndex(paths', groups[i]) == FirstIndex(paths, groups[i])
    {
      FirstIndexAppend(paths, p, groups[i]);
    }
    if p !in groups {
      FirstIndexNew(paths, p);
      assert groups'[|groups|] == p;
    }
  }

  /**
   * `findGroups(labels)`: the distinct group paths of the labels, in the order
   * in which they first occur (a JavaScript `Set` iterates in insertion order).
   */
  method FindGroups(labels: seq<string>) returns (groups: seq<string>)
    ensures Distinct(groups)
    ensures forall x :: x in groups <==> x in GroupPaths(labels)
    ensures forall i, j :: 0 <= i < j < |groups| ==>
      FirstIndex(GroupPaths(labels), groups[i]) < FirstIndex(GroupPaths(labels), groups[j])
  {
    ghost var paths := GroupPaths(labels);
    groups := [];
    for n := 0 to |labels|
      invariant FirstOccurrences(paths[..n], groups)
    {
      var group := GroupPath(labels[n]);
      GroupPathsPrefix(labels, n);
      FirstOccurrencesStep(paths[..n], groups, group);
      if group !in groups {
        groups := groups + [group];
      }
    }
    assert paths[..|labels|] == paths;
  }

  /** The group paths of the first `n + 1` labels extend those of the first `n`. */
  lemma GroupPathsPrefix(labels: seq<string>, n: nat)
    requires n < |labels|
    ensures GroupPaths(labels)[..n + 1] == GroupPaths(labels)[..n] + [GroupPath(labels[n])]
  {
  }

  // ---------------------------------------------------------------------------
  // createGroups

  /** `'G' + i`. */
  function GroupId(i: nat): string {
    "G" + NumberToString(i)
  }

  /**
   * What `createGroups(dimensions)` returns: one group per distinct group path,
   * in strictly increasing path order, with id `G<i>`, its last segment as
   * label, and as parent the one `findParent` picks among all the groups.
   */
  ghost predicate IsGroupList(dimensions: seq<string>, groups: seq<Node>) {
    && (forall i, j :: 0 <= i < j < |groups| ==> Less(groups[i].dimension, groups[j].dimension))
    && (forall i :: 0 <= i < |groups| ==> groups[i].dimension in GroupPaths(dimensions))
    && (forall k :: 0 <= k < |dimensions| ==>
          exists i :: 0 <= i < |groups| && groups[i].dimension == GroupPath(dimensions[k]))
    && (forall i :: 0 <= i < |groups| ==>
          && groups[i].id == GroupId(i)
          && groups[i].caption == LastSegment(groups[i].dimension)
          && groups[i].kind == GroupNode
          && groups[i].parent == ParentId(FindParent(groups, groups[i].dimension)))
  }

  /** `node` is the group `createGroups` builds for `path` after the groups `built`. */
  ghost predicate BuiltGroup(built: seq<Node>, path: string, node: Node) {
    && node.id == GroupId(|built|)
    && node.dimension == path
    && node.caption == LastSegment(path)
    && node.kind == GroupNode
    && node.parent == ParentId(FindParent(built, path))
  }

  /** `nodes` are the groups for the sorted paths `paths`, each built after the ones before it. */
  ghost predicate BuiltInOrder(paths: seq<string>, nodes: seq<Node>) {
    && |nodes| == |paths|
    && forall k :: 0 <= k < |nodes| ==> BuiltGroup(nodes[..k], paths[k], nodes[k])
  }

  /** Building the groups for the sorted, distinct group paths gives the group list of the dimensions. */
  lemma BuiltGroupsAreGroupList(dimensions: seq<string>, paths: seq<string>, sorted: seq<string>, nodes: seq<Node>)
    requires forall x :: x in paths <==> x in GroupPaths(dimensions)
    requires multiset(sorted) == multiset(paths) && StrictlySorted(sorted)
    requires BuiltInOrder(sorted, nodes)
    ensures IsGroupList(dimensions, nodes)
  {
    forall k | 0 <= k < |nodes|
      ensures nodes[k].parent == ParentId(FindParent(nodes, nodes[k].dimension))
    {
      IncrementalParent(nodes, k);
    }
    forall i | 0 <= i < |nodes| ensures nodes[i].dimension in GroupPaths(dimensions) {
      SameElements(sorted, paths, i);
    }
    forall k | 0 <= k < |dimensions|
      ensures exists i :: 0 <= i < |nodes| && nodes[i].dimension == GroupPath(dimensions[k])
    {
      var p := GroupPaths(dimensions)[k];
      assert p in paths;
      assert p in multiset(paths);
      var i :| 0 <= i < |sorted| && sorted[i] == p;
      assert nodes[i].dimension == GroupPath(dimensions[k]);
    }
  }

  lemma SameElements(s: seq<string>, t: seq<string>, i: nat)
    requires multiset(s) == multiset(t) && i < |s|
    ensures s[i] in t
  {
    assert s[i] in multiset(s);
  }

  /** The body of the loop in `createGroups`: builds the group for `name` after the groups `built`. */
  method CreateGroup(built: seq<Node>, name: string) returns (node: Node)
    ensures BuiltGroup(built, name, node)
  {
    node := Node(GroupId(|built|), LastSegment(name), name, None, GroupNode);
    var parent := FindParent(built, name);
    if parent.Some? {
      node := node.(parent := Some(parent.value.id));
    }
  }

  /** `createGroups(dimensions)`: each group's parent is looked up among the groups built before it. */
  method CreateGroups(dimensions: seq<string>) returns (groupNodes: seq<Node>)
    ensures IsGroupList(dimensions, groupNodes)
  {
    var paths := FindGroups(dimensions);
    var groups := Sort(paths);
    SortDistinct(paths);
    groupNodes := [];
    for i := 0 to |groups|
      invariant BuiltInOrder(groups[..i], groupNodes)
    {
      var name := groups[i];
      var node := CreateGroup(groupNodes, name);
      AppendBuilt(groups, i, groupNodes, node);
      groupNodes := groupNodes + [node];
    }
    assert groups[..|groups|] == groups;
    BuiltGroupsAreGroupList(dimensions, paths, groups, groupNodes);
  }

  lemma AppendBuilt(sorted: seq<string>, i: nat, nodes: seq<Node>, node: Node)
    requires i < |sorted| && BuiltInOrder(sorted[..i], nodes) && BuiltGroup(nodes, sorted[i], node)
    ensures BuiltInOrder(sorted[..i + 1], nodes + [node])
  {
    var nodes', paths, paths' := nodes + [node], sorted[..i], sorted[..i + 1];
    assert paths' == paths + [sorted[i]];
    forall k | 0 <= k < |nodes'| ensures BuiltGroup(nodes'[..k], paths'[k], nodes'[k]) {
      if k < |nodes| {
        assert nodes'[..k] == nodes[..k] && nodes'[k] == nodes[k] && paths'[k] == paths[k];
      } else {
        assert nodes'[..k] == nodes;
      }
    }
  }

  /** Group ids are pairwise distinct. */
  lemma GroupIdsUnique(dimensions: seq<string>, groups: seq<Node>)
    requires IsGroupList(dimensions, groups)
    ensures forall i, j :: 0 <= i < j < |groups| ==> groups[i].id != groups[j].id
  {
    forall i, j | 0 <= i < j < |groups| ensures groups[i].id != groups[j].id {
      if groups[i].id == groups[j].id {
        assert GroupId(i)[1..] == NumberToString(i);
        assert GroupId(j)[1..] == NumberToString(j);
        NumberToStringInjective(i, j);
      }
    }
  }

  /**
   * A group's parent is a group with a smaller index whose path followed by
   * `/` is a prefix of the child's path (so strictly shorter), and no group
   * with that property has a longer path.
   */
  lemma GroupParentEarlier(dimensions: seq<string>, groups: seq<Node>, i: nat)
    requires IsGroupList(dimensions, groups) && i < |groups|
    requires groups[i].parent.Some?
    ensures exists k :: (0 <= k < i && groups[k].id == groups[i].parent.value
      && IsCandidate(groups[k], groups[i].dimension)
      && |groups[k].dimension| < |groups[i].dimension|
      && forall j :: 0 <= j < |groups| && IsCandidate(groups[j], groups[i].dimension) ==>
           |groups[j].dimension| <= |groups[k].dimension|)
  {
    var name := groups[i].dimension;
    var p := FindParent(groups, name);
    var k :| FirstLongest(groups, name, k) && groups[k] == p.value;
    CandidateComesEarlier(groups, i, k);
  }

  /** Every parent reference names a group that comes earlier in the list. */
  ghost predicate ParentsPrecede(groups: seq<Node>) {
    forall i :: 0 <= i < |groups| && groups[i].parent.Some? ==>
      exists k :: 0 <= k < i && groups[k].id == groups[i].parent.value
  }

  lemma GroupListParentsPrecede(dimensions: seq<string>, groups: seq<Node>)
    requires IsGroupList(dimensions, groups)
    ensures ParentsPrecede(groups)
  {
    forall i | 0 <= i < |groups| && groups[i].parent.Some?
      ensures exists k :: 0 <= k < i && groups[k].id == groups[i].parent.value
    {
      GroupParentEarlier(dimensions, groups, i);
    }
  }

  /** The indices of the enclosing groups of group i, nearest first. */
  ghost function Ancestors(groups: seq<Node>, i: nat): (a: seq<nat>)
    requires ParentsPrecede(groups) && i < |groups|
    ensures forall x :: x in a ==> x < i
    decreases i
  {
    if groups[i].parent.None? then []
    else
      var k :| 0 <= k < i && groups[k].id == groups[i].parent.value;
      [k] + Ancestors(groups, k)
  }

  /** Containment is acyclic: no group built by `createGroups` is among its own ancestors. */
  lemma GroupContainmentAcyclic(dimensions: seq<string>, groups: seq<Node>, i: nat)
    requires IsGroupList(dimensions, groups) && i < |groups|
    ensures ParentsPrecede(groups) && i !in Ancestors(groups, i)
  {
    GroupListParentsPrecede(dimensions, groups);
  }

  /** The empty group path is a candidate parent exactly of names that start with `/`. */
  lemma EmptyGroupCandidate(g: Node, name: string)
    requires g.dimension == ""
    ensures IsCandidate(g, name) <==> |name| > 0 && name[0] == '/'
  {
  }

  /**
   * A dimension with no slash contributes the empty group path, so the groups
   * built for it include one with the empty path.
   */
  lemma SlashlessNameYieldsEmptyGroup(dimensions: seq<string>, groups: seq<Node>, k: nat)
    requires IsGroupList(dimensions, groups) && k < |dimensions| && '/' !in dimensions[k]
    ensures exists i :: 0 <= i < |groups| && groups[i].dimension == ""
  {
    PathDecomposition(dimensions[k]);
  }

  /** No group is a candidate parent of a name without a slash. */
  lemma SlashlessHasNoCandidate(g: Node, name: string)
    requires '/' !in name
    ensures !IsCandidate(g, name)
  {
    var d := g.dimension;
    assert (d + "/")[|d|] == '/';
    if |d| < |name| {
      assert name[|d|] != '/';
      assert name[..|d| + 1][|d|] == name[|d|];
    }
  }

  /** A candidate parent of a name with a slash is no longer than the name's group path, and equally long only if it is that path. */
  lemma CandidateWithinGroupPath(g: Node, name: string)
    requires '/' in name && IsCandidate(g, name)
    ensures |g.dimension| <= |GroupPath(name)|
    ensures |g.dimension| == |GroupPath(name)| ==> g.dimension == GroupPath(name)
  {
    PathDecomposition(name);
    var d, path, last := g.dimension, GroupPath(name), LastSegment(name);
    assert name[..|d|] == (d + "/")[..|d|];
    assert name[|d|] == name[..|d| + 1][|d|] == (d + "/")[|d|] == '/';
    forall p | |path| < p < |name| ensures name[p] != '/' {
      assert name[p] == last[p - |path| - 1];
    }
    if |d| == |path| {
      assert name[..|path|] == path;
    }
  }

  lemma GroupPathIsCandidate(g: Node, name: string)
    requires '/' in name && g.dimension == GroupPath(name)
    ensures IsCandidate(g, name)
  {
    PathDecomposition(name);
    assert name[..|g.dimension| + 1] == g.dimension + "/";
  }

  /**
   * Against the groups built from the same dimensions, a name with a slash
   * resolves to the group whose path is its own group path, and a name without
   * one resolves to no group.
   */
  lemma ParentOfDimension(dimensions: seq<string>, groups: seq<Node>, d: nat)
    requires IsGroupList(dimensions, groups) && d < |dimensions|
    ensures '/' !in dimensions[d] ==> FindParent(groups, dimensions[d]) == None
    ensures '/' in dimensions[d] ==> exists k :: (0 <= k < |groups|
      && groups[k].dimension == GroupPath(dimensions[d])
      && FindParent(groups, dimensions[d]) == Some(groups[k]))
  {
    var name := dimensions[d];
    if '/' !in name {
      forall j | 0 <= j < |groups| ensures !IsCandidate(groups[j], name) {
        SlashlessHasNoCandidate(groups[j], name);
      }
    } else {
      var path := GroupPath(name);
      var k :| 0 <= k < |groups| && groups[k].dimension == path;
      GroupPathIsCandidate(groups[k], name);
      var r := FindParent(groups, name).value;
      var k2 :| FirstLongest(groups, name, k2) && groups[k2] == r;
      CandidateWithinGroupPath(r, name);
      if k2 != k {
        LessIrreflexive(path);
      }
    }
  }

  // ---------------------------------------------------------------------------
  // sumRow and sumCol

  /** The sum of `m[r][j]` for `j < k`, `j != r`. */
  function RowSum(m: seq<seq<int>>, r: nat, k: nat): int
    requires Square(m) && r < |m| && k <= |m|
  {
    if k == 0 then 0
    else RowSum(m, r, k - 1) + (if k - 1 != r then m[r][k - 1] else 0)
  }

  /** The sum of `m[j][c]` for `j < k`, `j != c`. */
  function ColSum(m: seq<seq<int>>, c: nat, k: nat): int
    requires Square(m) && c < |m| && k <= |m|
  {
    if k == 0 then 0
    else ColSum(m, c, k - 1) + (if k - 1 != c then m[k - 1][c] else 0)
  }

  /** The sum of the whole first `k` entries of row r, diagonal included. */
  function RowTotal(m: seq<seq<int>>, r: nat, k: nat): int
    requires Square(m) && r < |m| && k <= |m|
  {
    if k == 0 then 0 else RowTotal(m, r, k - 1) + m[r][k - 1]
  }

  /** The sum of the whole first `k` entries of column c, diagonal included. */
  function ColTotal(m: seq<seq<int>>, c: nat, k: nat): int
    requires Square(m) && c < |m| && k <= |m|
  {
    if k == 0 then 0 else ColTotal(m, c, k - 1) + m[k - 1][c]
  }

  /** `sumRow(matrix, nodeIndex)`: the outgoing connections of a dimension. */
  method SumRow(matrix: seq<seq<int>>, nodeIndex: nat) returns (sum: int)
    requires Square(matrix) && nodeIndex < |matrix|
    ensures sum == RowSum(matrix, nodeIndex, |matrix|)
  {
    sum := 0;
    for i := 0 to |matrix|
      invariant sum == RowSum(matrix, nodeIndex, i)
    {
      if i != nodeIndex {
        sum := sum + matrix[nodeIndex][i];
      }
    }
  }

  /** `sumCol(matrix, nodeIndex)`: the incoming connections of a dimension. */
  method SumCol(matrix: seq<seq<int>>, nodeIndex: nat) returns (sum: int)
    requires Square(matrix) && nodeIndex < |matrix|
    ensures sum == ColSum(matrix, nodeIndex, |matrix|)
  {
    sum := 0;
    for i := 0 to |matrix|
      invariant sum == ColSum(matrix, nodeIndex, i)
    {
      if i != nodeIndex {
        sum := sum + matrix[i][nodeIndex];
      }
    }
  }

  /** The row and column sums leave out exactly the diagonal cell. */
  lemma {:induction false} SumsExcludeDiagonal(m: seq<seq<int>>, i: nat, k: nat)
    requires Square(m) && i < |m| && k <= |m|
    ensures RowSum(m, i, k) == RowTotal(m, i, k) - (if i < k then m[i][i] else 0)
    ensures ColSum(m, i, k) == ColTotal(m, i, k) - (if i < k then m[i][i] else 0)
  {
    if k > 0 {
      SumsExcludeDiagonal(m, i, k - 1);
    }
  }

  predicate NonNegative(m: seq<seq<int>>) {
    forall i, j :: 0 <= i < |m| && 0 <= j < |m[i]| ==> m[i][j] >= 0
  }

  predicate Symmetric(m: seq<seq<int>>)
    requires Square(m)
  {
    forall i, j :: 0 <= i < |m| && 0 <= j < |m| ==> m[i][j] == m[j][i]
  }

  lemma {:induction false} SumsNonNegative(m: seq<seq<int>>, i: nat, k: nat)
    requires Square(m) && NonNegative(m) && i < |m| && k <= |m|
    ensures RowSum(m, i, k) >= 0 && ColSum(m, i, k) >= 0
  {
    if k > 0 {
      SumsNonNegative(m, i, k - 1);
    }
  }

  lemma {:induction false} SymmetricSums(m: seq<seq<int>>, i: nat, k: nat)
    requires Square(m) && Symmetric(m) && i < |m| && k <= |m|
    ensures RowSum(m, i, k) == ColSum(m, i, k)
  {
    if k > 0 {
      SymmetricSums(m, i, k - 1);
    }
  }

  // ---------------------------------------------------------------------------
  // createNodes

  /** `result.sumOfCoupling ? result.sumOfCoupling[i] : -1`. */
  function Soc(result: CouplingResult, i: nat): int
    requires WellFormed(result) && i < |result.dimensions|
  {
    if result.sumOfCoupling.Some? then result.sumOfCoupling.value[i] else -1
  }

  /** What the tooltip of leaf i reports. */
  function LeafSummary(result: CouplingResult, graphType: GraphType, i: nat): Summary
    requires WellFormed(result) && i < |result.dimensions|
  {
    if graphType == Structure then
      StructureSummary(result.fileCount[i], result.cohesion[i],
        RowSum(result.matrix, i, |result.matrix|), ColSum(result.matrix, i, |result.matrix|))
    else
      ChangeSummary(result.fileCount[i], Soc(result, i))
  }

  /**
   * Leaf i as `createNodes(result, groups, type)` builds it: id `'' + i`, the
   * last segment as label, the full name as dimension, the parent `findParent`
   * picks among `groups`, and its summary.
   */
  ghost predicate IsLeaf(result: CouplingResult, groups: seq<Node>, graphType: GraphType, i: nat, node: Node)
    requires WellFormed(result) && i < |result.dimensions|
  {
    && node.id == NumberToString(i)
    && node.caption == LastSegment(result.dimensions[i])
    && node.dimension == result.dimensions[i]
    && node.parent == ParentId(FindParent(groups, result.dimensions[i]))
    && node.kind == LeafNode(LeafSummary(result, graphType, i))
  }

  /** What `createNodes(result, groups, type)` returns: one leaf per dimension, in order. */
  ghost predicate IsLeafList(result: CouplingResult, groups: seq<Node>, graphType: GraphType, nodes: seq<Node>)
    requires WellFormed(result)
  {
    && |nodes| == |result.dimensions|
    && forall i :: 0 <= i < |nodes| ==> IsLeaf(result, groups, graphType, i, nodes[i])
  }

  /** The body of the loop in `createNodes`: builds leaf i. */
  method CreateLeaf(result: CouplingResult, groups: seq<Node>, graphType: GraphType, i: nat) returns (node: Node)
    requires WellFormed(result) && i < |result.dimensions|
    ensures IsLeaf(result, groups, graphType, i, node)
  {
    var name := result.dimensions[i];
    var summary;
    if graphType == Structure {
      var outgoing := SumRow(result.matrix, i);
      var incoming := SumCol(result.matrix, i);
      summary := StructureSummary(result.fileCount[i], result.cohesion[i], outgoing, incoming);
    } else {
      var soc := Soc(result, i);
      summary := ChangeSummary(result.fileCount[i], soc);
    }
    node := Node(NumberToString(i), LastSegment(name), name, None, LeafNode(summary));
    var parent := FindParent(groups, name);
    if parent.Some? {
      node := node.(parent := Some(parent.value.id));
    }
  }

  /** `createNodes(result, groups, type)`. */
  method CreateNodes(result: CouplingResult, groups: seq<Node>, graphType: GraphType) returns (nodes: seq<Node>)
    requires WellFormed(result)
    ensures IsLeafList(result, groups, graphType, nodes)
  {
    nodes := [];
    for i := 0 to |result.dimensions|
      invariant |nodes| == i
      invariant forall k :: 0 <= k < i ==> IsLeaf(result, groups, graphType, k, nodes[k])
    {
      var node := CreateLeaf(result, groups, graphType, i);
      nodes := nodes + [node];
    }
  }

  /** Leaf ids are pairwise distinct and none is a group id. */
  lemma NodeIdsUnique(result: CouplingResult, groups: seq<Node>, graphType: GraphType, nodes: seq<Node>)
    requires WellFormed(result) && IsLeafList(result, groups, graphType, nodes)
    requires IsGroupList(result.dimensions, groups)
    ensures forall i, j :: 0 <= i < j < |nodes| ==> nodes[i].id != nodes[j].id
    ensures forall i, k :: 0 <= i < |nodes| && 0 <= k < |groups| ==> nodes[i].id != groups[k].id
  {
    forall i, j | 0 <= i < j < |nodes| ensures nodes[i].id != nodes[j].id {
      if nodes[i].id == nodes[j].id {
        NumberToStringInjective(i, j);
      }
    }
    forall i, k | 0 <= i < |nodes| && 0 <= k < |groups| ensures nodes[i].id != groups[k].id {
      assert groups[k].id[0] == 'G';
      assert '0' <= nodes[i].id[0] <= '9';
    }
  }

  /**
   * A leaf's parent, if any, is the id of a group in `groups` whose path
   * followed by `/` starts the leaf's name.
   */
  lemma LeafParentResolves(result: CouplingResult, groups: seq<Node>, graphType: GraphType, nodes: seq<Node>, i: nat)
    requires WellFormed(result) && IsLeafList(result, groups, graphType, nodes) && i < |nodes|
    requires nodes[i].parent.Some?
    ensures exists k :: (0 <= k < |groups| && groups[k].id == nodes[i].parent.value
      && IsCandidate(groups[k], nodes[i].dimension))
  {
    var p := FindParent(groups, result.dimensions[i]);
    var k :| FirstLongest(groups, result.dimensions[i], k) && groups[k] == p.value;
  }

  /**
   * With the groups built from the same dimensions, a leaf whose name has a
   * slash sits in the group whose path is its directory part, and a leaf
   * without a slash has no parent.
   */
  lemma LeafParentIsGroupPath(result: CouplingResult, groups: seq<Node>, graphType: GraphType, nodes: seq<Node>, i: nat)
    requires WellFormed(result) && IsLeafList(result, groups, graphType, nodes) && i < |nodes|
    requires IsGroupList(result.dimensions, groups)
    ensures '/' !in result.dimensions[i] ==> nodes[i].parent == None
    ensures '/' in result.dimensions[i] ==> exists k :: (0 <= k < |groups|
      && groups[k].dimension == GroupPath(result.dimensions[i])
      && nodes[i].parent == Some(groups[k].id))
  {
    ParentOfDimension(result.dimensions, groups, i);
  }

  // ---------------------------------------------------------------------------
  // createEdges

  /** A matrix position. */
  datatype Cell = Cell(row: nat, col: nat)

  predicate InRange(m: seq<seq<int>>, cs: seq<Cell>) {
    forall k :: 0 <= k < |cs| ==> cs[k].row < |m| && cs[k].col < |m|
  }

  /** The cells `(i, j)`, `j < k`, of row i that reach the threshold, left to right. */
  function RowCells(m: seq<seq<int>>, minConnections: int, i: nat, k: nat): (cs: seq<Cell>)
    requires Square(m) && i < |m| && k <= |m|
    ensures forall c :: 0 <= c < |cs| ==> cs[c].row == i && cs[c].col < k
  {
    if k == 0 then []
    else RowCells(m, minConnections, i, k - 1) + (if m[i][k - 1] >= minConnections then [Cell(i, k - 1)] else [])
  }

  /** The cells of rows `0..k-1` that reach the threshold, in row-major order. */
  function MatrixCells(m: seq<seq<int>>, minConnections: int, k: nat): (cs: seq<Cell>)
    requires Square(m) && k <= |m|
    ensures forall c :: 0 <= c < |cs| ==> cs[c].row < k && cs[c].col < |m|
  {
    if k == 0 then []
    else MatrixCells(m, minConnections, k - 1) + RowCells(m, minConnections, k - 1, |m|)
  }

  /** The edge for a cell: ids of both dimensions and the cell's value as weight. */
  function EdgeAt(m: seq<seq<int>>, c: Cell): Edge
    requires Square(m) && c.row < |m| && c.col < |m|
  {
    Edge(NumberToString(c.row), NumberToString(c.col), m[c.row][c.col])
  }

  function EdgesOf(m: seq<seq<int>>, cs: seq<Cell>): seq<Edge>
    requires Square(m) && InRange(m, cs)
  {
    seq(|cs|, k requires 0 <= k < |cs| => EdgeAt(m, cs[k]))
  }

  /** The edges `createEdges` is to return for a matrix and a threshold. */
  function Edges(m: seq<seq<int>>, minConnections: int): seq<Edge>
    requires Square(m)
  {
    EdgesOf(m, MatrixCells(m, minConnections, |m|))
  }

  /** `createEdges(result, type, minConnections)`: scans the matrix row by row. */
  method CreateEdges(result: CouplingResult, graphType: GraphType, minConnections: int) returns (edges: seq<Edge>)
    requires Square(result.matrix) && |result.dimensions| == |result.matrix|
    ensures edges == Edges(result.matrix, minConnections)
  {
    var m := result.matrix;
    var n := |m|;
    edges := [];
    for i := 0 to n
      invariant edges == EdgesOf(m, MatrixCells(m, minConnections, i))
    {
      for j := 0 to n
        invariant edges == EdgesOf(m, MatrixCells(m, minConnections, i) + RowCells(m, minConnections, i, j))
      {
        ScanStep(m, minConnections, i, j);
        if m[i][j] >= minConnections {
          edges := edges + [EdgeAt(m, Cell(i, j))];
        }
      }
      MatrixCellsUnfold(m, minConnections, i);
    }
  }

  /** Scanning cell (i, j) appends its edge exactly when it reaches the threshold. */
  lemma ScanStep(m: seq<seq<int>>, t: int, i: nat, j: nat)
    requires Square(m) && i < |m| && j < |m|
    ensures EdgesOf(m, MatrixCells(m, t, i) + RowCells(m, t, i, j + 1))
      == EdgesOf(m, MatrixCells(m, t, i) + RowCells(m, t, i, j)) + (if m[i][j] >= t then [EdgeAt(m, Cell(i, j))] else [])
  {
    var prev := MatrixCells(m, t, i) + RowCells(m, t, i, j);
    var cell := if m[i][j] >= t then [Cell(i, j)] else [];
    RowCellsUnfold(m, t, i, j);
    assert MatrixCells(m, t, i) + RowCells(m, t, i, j + 1) == prev + cell;
    EdgesOfAppend(m, prev, cell);
  }

  /** A cell takes part exactly when it is in the matrix and reaches the threshold. */
  lemma {:induction false} RowCellsMembership(m: seq<seq<int>>, minConnections: int, i: nat, k: nat, c: Cell)
    requires Square(m) && i < |m| && k <= |m|
    ensures c in RowCells(m, minConnections, i, k) <==> c.row == i && c.col < k && m[i][c.col] >= minConnections
  {
    if k > 0 {
      var j: nat := k - 1;
      RowCellsMembership(m, minConnections, i, j, c);
      RowCellsUnfold(m, minConnections, i, j);
    }
  }

  lemma {:induction false} MatrixCellsMembership(m: seq<seq<int>>, minConnections: int, k: nat, c: Cell)
    requires Square(m) && k <= |m|
    ensures c in MatrixCells(m, minConnections, k) <==>
      c.row < k && c.col < |m| && m[c.row][c.col] >= minConnections
  {
    if k > 0 {
      var j: nat := k - 1;
      MatrixCellsMembership(m, minConnections, j, c);
      MatrixMembershipStep(m, minConnections, j, c);
    }
  }

  /** Adding row j adds exactly its cells that reach the threshold. */
  lemma MatrixMembershipStep(m: seq<seq<int>>, minConnections: int, j: nat, c: Cell)
    requires Square(m) && j < |m|
    requires c in MatrixCells(m, minConnections, j) <==>
      c.row < j && c.col < |m| && m[c.row][c.col] >= minConnections
    ensures c in MatrixCells(m, minConnections, j + 1) <==>
      c.row < j + 1 && c.col < |m| && m[c.row][c.col] >= minConnections
  {
    var prev, row := MatrixCells(m, minConnections, j), RowCells(m, minConnections, j, |m|);
    RowCellsMembership(m, minConnections, j, |m|, c);
    MatrixCellsUnfold(m, minConnections, j);
    assert MatrixCells(m, minConnections, j + 1) == prev + row;
    assert c in prev + row <==> c in prev || c in row;
  }

  /** The edge of a cell determines the cell. */
  lemma EdgeAtInjective(m: seq<seq<int>>, c: Cell, d: Cell)
    requires Square(m) && c.row < |m| && c.col < |m| && d.row < |m| && d.col < |m|
    requires EdgeAt(m, c) == EdgeAt(m, d)
    ensures c == d
  {
    NumberToStringInjective(c.row, d.row);
    NumberToStringInjective(c.col, d.col);
  }

  /** An edge is emitted for (i, j), the diagonal included, exactly when `m[i][j] >= minConnections`. */
  lemma EdgeEmittedIff(m: seq<seq<int>>, minConnections: int, i: nat, j: nat)
    requires Square(m) && i < |m| && j < |m|
    ensures Edge(NumberToString(i), NumberToString(j), m[i][j]) in Edges(m, minConnections)
      <==> m[i][j] >= minConnections
  {
    var cs := MatrixCells(m, minConnections, |m|);
    var es := Edges(m, minConnections);
    var c := Cell(i, j);
    assert EdgeAt(m, c) == Edge(NumberToString(i), NumberToString(j), m[i][j]);
    MatrixCellsMembership(m, minConnections, |m|, c);
    if EdgeAt(m, c) in es {
      var k :| 0 <= k < |es| && es[k] == EdgeAt(m, c);
      EdgeAtInjective(m, cs[k], c);
    }
    if c in cs {
      var k :| 0 <= k < |cs| && cs[k] == c;
      assert es[k] == EdgeAt(m, c);
    }
  }

  /** Every emitted edge comes from a cell that reaches the threshold, and carries that cell's value. */
  lemma EdgesFromCells(m: seq<seq<int>>, minConnections: int, e: Edge)
    requires Square(m) && e in Edges(m, minConnections)
    ensures exists i, j :: (0 <= i < |m| && 0 <= j < |m|
      && e == Edge(NumberToString(i), NumberToString(j), m[i][j]) && m[i][j] >= minConnections)
  {
    var cs := MatrixCells(m, minConnections, |m|);
    var k :| 0 <= k < |cs| && EdgeAt(m, cs[k]) == e;
    MatrixCellsMembership(m, minConnections, |m|, cs[k]);
  }

  /** Row-major order on matrix positions. */
  predicate RowMajorBefore(a: Cell, b: Cell) {
    a.row < b.row || (a.row == b.row && a.col < b.col)
  }

  /** Strictly increasing in row-major order. */
  predicate RowMajorOrdered(cs: seq<Cell>) {
    forall a, b :: 0 <= a < b < |cs| ==> RowMajorBefore(cs[a], cs[b])
  }

  lemma {:induction false} RowCellsOrdered(m: seq<seq<int>>, minConnections: int, i: nat, k: nat)
    requires Square(m) && i < |m| && k <= |m|
    ensures RowMajorOrdered(RowCells(m, minConnections, i, k))
  {
    if k > 0 {
      RowCellsOrdered(m, minConnections, i, k - 1);
      var prev := RowCells(m, minConnections, i, k - 1);
      var cs := RowCells(m, minConnections, i, k);
      var tail := if m[i][k - 1] >= minConnections then [Cell(i, k - 1)] else [];
      assert cs == prev + tail;
      forall a, b | 0 <= a < b < |cs| ensures RowMajorBefore(cs[a], cs[b]) {
        assert cs[a] == prev[a];
        if b < |prev| {
          assert cs[b] == prev[b];
        } else {
          assert cs[b] == Cell(i, k - 1);
          assert prev[a].row == i && prev[a].col < k - 1;
        }
      }
    }
  }

  /** Cells of earlier rows followed by ordered cells of row j stay ordered. */
  lemma OrderedConcat(prev: seq<Cell>, row: seq<Cell>, j: nat)
    requires RowMajorOrdered(prev) && RowMajorOrdered(row)
    requires forall a :: 0 <= a < |prev| ==> prev[a].row < j
    requires forall b :: 0 <= b < |row| ==> row[b].row == j
    ensures RowMajorOrdered(prev + row)
  {
    var cs := prev + row;
    forall a, b | 0 <= a < b < |cs| ensures RowMajorBefore(cs[a], cs[b]) {
      if b < |prev| {
        assert cs[a] == prev[a] && cs[b] == prev[b];
      } else if a < |prev| {
        assert cs[a] == prev[a] && cs[b] == row[b - |prev|];
      } else {
        assert cs[a] == row[a - |prev|] && cs[b] == row[b - |prev|];
      }
    }
  }

  lemma {:induction false} MatrixCellsOrdered(m: seq<seq<int>>, minConnections: int, k: nat)
    requires Square(m) && k <= |m|
    ensures RowMajorOrdered(MatrixCells(m, minConnections, k))
  {
    if k > 0 {
      var j: nat := k - 1;
      MatrixCellsOrdered(m, minConnections, j);
      RowCellsOrdered(m, minConnections, j, |m|);
      MatrixCellsUnfold(m, minConnections, j);
      OrderedConcat(MatrixCells(m, minConnections, j), RowCells(m, minConnections, j, |m|), j);
    }
  }

  /**
   * Every edge's source and target are decimal indices, and the edges are
   * strictly increasing in row-major order of those (source, target) index
   * pairs; in particular no edge is emitted twice.
   */
  lemma EdgesRowMajor(m: seq<seq<int>>, minConnections: int)
    requires Square(m)
    ensures var es := Edges(m, minConnections);
      forall k :: 0 <= k < |es| ==> IsDecimal(es[k].source) && IsDecimal(es[k].target)
    ensures var es := Edges(m, minConnections);
      forall a, b :: 0 <= a < b < |es| ==> RowMajorBefore(
        Cell(DecimalValue(es[a].source), DecimalValue(es[a].target)),
        Cell(DecimalValue(es[b].source), DecimalValue(es[b].target)))
    ensures var es := Edges(m, minConnections);
      forall a, b :: 0 <= a < b < |es| ==> es[a] != es[b]
  {
    var cs := MatrixCells(m, minConnections, |m|);
    var es := Edges(m, minConnections);
    MatrixCellsOrdered(m, minConnections, |m|);
    forall k | 0 <= k < |es|
      ensures IsDecimal(es[k].source) && IsDecimal(es[k].target)
      ensures Cell(DecimalValue(es[k].source), DecimalValue(es[k].target)) == cs[k]
    {
      DecimalRoundTrip(cs[k].row);
      DecimalRoundTrip(cs[k].col);
    }
  }

  /** Row j adds at most N cells. */
  lemma CellCountStep(m: seq<seq<int>>, minConnections: int, j: nat)
    requires Square(m) && j < |m| && |MatrixCells(m, minConnections, j)| <= j * |m|
    ensures |MatrixCells(m, minConnections, j + 1)| <= (j + 1) * |m|
  {
    RowCellCountBound(m, minConnections, j, |m|);
    MatrixCellsUnfold(m, minConnections, j);
    assert (j + 1) * |m| == j * |m| + |m|;
  }

  lemma {:induction false} CellCountBound(m: seq<seq<int>>, minConnections: int, k: nat)
    requires Square(m) && k <= |m|
    ensures |MatrixCells(m, minConnections, k)| <= k * |m|
  {
    if k > 0 {
      var j: nat := k - 1;
      CellCountBound(m, minConnections, j);
      CellCountStep(m, minConnections, j);
    }
  }

  lemma {:induction false} RowCellCountBound(m: seq<seq<int>>, minConnections: int, i: nat, k: nat)
    requires Square(m) && i < |m| && k <= |m|
    ensures |RowCells(m, minConnections, i, k)| <= k
  {
    if k > 0 {
      RowCellCountBound(m, minConnections, i, k - 1);
    }
  }

  /** There are at most N * N edges. */
  lemma EdgeCountBound(m: seq<seq<int>>, minConnections: int)
    requires Square(m)
    ensures |Edges(m, minConnections)| <= |m| * |m|
  {
    CellCountBound(m, minConnections, |m|);
  }

  /** `edges.filter(e => e.weight >= t)`. */
  function AtLeast(es: seq<Edge>, t: int): (r: seq<Edge>)
    ensures |r| <= |es|
    ensures forall e :: e in r ==> e in es && e.weight >= t
  {
    if es == [] then []
    else
      var last := es[|es| - 1];
      assert es == es[..|es| - 1] + [last];
      AtLeast(es[..|es| - 1], t) + (if last.weight >= t then [last] else [])
  }

  lemma {:induction false} AtLeastAppend(a: seq<Edge>, b: seq<Edge>, t: int)
    ensures AtLeast(a + b, t) == AtLeast(a, t) + AtLeast(b, t)
    decreases |b|
  {
    if b == [] {
      assert a + b == a;
    } else {
      var init := b[..|b| - 1];
      assert (a + b)[..|a + b| - 1] == a + init;
      assert (a + b)[|a + b| - 1] == b[|b| - 1];
      AtLeastAppend(a, init, t);
    }
  }

  lemma EdgesOfAppend(m: seq<seq<int>>, a: seq<Cell>, b: seq<Cell>)
    requires Square(m) && InRange(m, a) && InRange(m, b)
    ensures InRange(m, a + b) && EdgesOf(m, a + b) == EdgesOf(m, a) + EdgesOf(m, b)
  {
    assert InRange(m, a + b) by {
      forall k | 0 <= k < |a + b| ensures (a + b)[k].row < |m| && (a + b)[k].col < |m| {
        if k >= |a| {
          assert (a + b)[k] == b[k - |a|];
        }
      }
    }
  }

  /** The threshold step for one cell. */
  lemma CellThreshold(m: seq<seq<int>>, t1: int, t2: int, c: Cell)
    requires Square(m) && c.row < |m| && c.col < |m| && t1 <= t2
    ensures var v := m[c.row][c.col];
      EdgesOf(m, if v >= t2 then [c] else []) == AtLeast(EdgesOf(m, if v >= t1 then [c] else []), t2)
  {
    var v := m[c.row][c.col];
    if v >= t1 {
      var e := EdgeAt(m, c);
      assert EdgesOf(m, [c]) == [e];
      assert [e][..0] == [];
      assert AtLeast([e], t2) == (if v >= t2 then [e] else []);
    }
  }

  lemma RowCellsUnfold(m: seq<seq<int>>, t: int, i: nat, j: nat)
    requires Square(m) && i < |m| && j < |m|
    ensures RowCells(m, t, i, j + 1) == RowCells(m, t, i, j) + (if m[i][j] >= t then [Cell(i, j)] else [])
  {
  }

  /** Adding cell (i, j) to the cells before it in row i. */
  lemma RowThresholdStep(m: seq<seq<int>>, t1: int, t2: int, i: nat, j: nat)
    requires Square(m) && i < |m| && j < |m| && t1 <= t2
    requires EdgesOf(m, RowCells(m, t2, i, j)) == AtLeast(EdgesOf(m, RowCells(m, t1, i, j)), t2)
    ensures EdgesOf(m, RowCells(m, t2, i, j + 1)) == AtLeast(EdgesOf(m, RowCells(m, t1, i, j + 1)), t2)
  {
    var c := Cell(i, j);
    RowCellsUnfold(m, t1, i, j);
    RowCellsUnfold(m, t2, i, j);
    CellThreshold(m, t1, t2, c);
    AppendThreshold(m, t2, RowCells(m, t1, i, j), if m[i][j] >= t1 then [c] else [],
      RowCells(m, t2, i, j), if m[i][j] >= t2 then [c] else []);
  }

  lemma {:induction false} RowThreshold(m: seq<seq<int>>, t1: int, t2: int, i: nat, k: nat)
    requires Square(m) && i < |m| && k <= |m| && t1 <= t2
    ensures EdgesOf(m, RowCells(m, t2, i, k)) == AtLeast(EdgesOf(m, RowCells(m, t1, i, k)), t2)
  {
    if k > 0 {
      var j: nat := k - 1;
      RowThreshold(m, t1, t2, i, j);
      RowThresholdStep(m, t1, t2, i, j);
    }
  }

  /** The threshold step for a concatenation of two runs of cells. */
  lemma AppendThreshold(m: seq<seq<int>>, t2: int, p1: seq<Cell>, r1: seq<Cell>, p2: seq<Cell>, r2: seq<Cell>)
    requires Square(m) && InRange(m, p1) && InRange(m, r1) && InRange(m, p2) && InRange(m, r2)
    requires EdgesOf(m, p2) == AtLeast(EdgesOf(m, p1), t2)
    requires EdgesOf(m, r2) == AtLeast(EdgesOf(m, r1), t2)
    ensures InRange(m, p1 + r1) && InRange(m, p2 + r2)
    ensures EdgesOf(m, p2 + r2) == AtLeast(EdgesOf(m, p1 + r1), t2)
  {
    EdgesOfAppend(m, p1, r1);
    EdgesOfAppend(m, p2, r2);
    AtLeastAppend(EdgesOf(m, p1), EdgesOf(m, r1), t2);
  }

  lemma MatrixCellsUnfold(m: seq<seq<int>>, t: int, j: nat)
    requires Square(m) && j < |m|
    ensures MatrixCells(m, t, j + 1) == MatrixCells(m, t, j) + RowCells(m, t, j, |m|)
  {
  }

  /** Adding row j to the rows before it. */
  lemma MatrixThresholdStep(m: seq<seq<int>>, t1: int, t2: int, j: nat)
    requires Square(m) && j < |m| && t1 <= t2
    requires EdgesOf(m, MatrixCells(m, t2, j)) == AtLeast(EdgesOf(m, MatrixCells(m, t1, j)), t2)
    ensures EdgesOf(m, MatrixCells(m, t2, j + 1)) == AtLeast(EdgesOf(m, MatrixCells(m, t1, j + 1)), t2)
  {
    RowThreshold(m, t1, t2, j, |m|);
    MatrixCellsUnfold(m, t1, j);
    MatrixCellsUnfold(m, t2, j);
    AppendThreshold(m, t2, MatrixCells(m, t1, j), RowCells(m, t1, j, |m|),
      MatrixCells(m, t2, j), RowCells(m, t2, j, |m|));
  }

  lemma {:induction false} MatrixThreshold(m: seq<seq<int>>, t1: int, t2: int, k: nat)
    requires Square(m) && k <= |m| && t1 <= t2
    ensures EdgesOf(m, MatrixCells(m, t2, k)) == AtLeast(EdgesOf(m, MatrixCells(m, t1, k)), t2)
  {
    if k > 0 {
      var j: nat := k - 1;
      MatrixThreshold(m, t1, t2, j);
      MatrixThresholdStep(m, t1, t2, j);
    }
  }

  /**
   * Raising the threshold keeps exactly the lower threshold's edges that reach
   * the higher one, in the same order: a subsequence, and so a subset.
   */
  lemma ThresholdMonotone(m: seq<seq<int>>, t1: int, t2: int)
    requires Square(m) && t1 <= t2
    ensures Edges(m, t2) == AtLeast(Edges(m, t1), t2)
    ensures forall e :: e in Edges(m, t2) ==> e in Edges(m, t1)
  {
    MatrixThreshold(m, t1, t2, |m|);
  }
}
