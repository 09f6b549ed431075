/**
 Breadth-first search over a distributed graph (examples/bfs/bfs.cpp:84-162,217-235).

 A value of size_t's maximum marks what is not set; here that is `None`.
 */
module Bfs {
  import opened Lists

  datatype BfsNode = BfsNode(edges: seq<nat>, nodeIndex: nat, treeIndex: Option<nat>, parent: Option<nat>,
                             level: Option<nat>)

  datatype NodeParentPair = NodeParentPair(node: nat, parent: nat)

  datatype TreeInfo = TreeInfo(startIndex: nat, levels: nat)

  // ---------------------------------------------------------------- the pipelines

  function Pairs(edges: seq<nat>, parent: nat): (r: seq<NodeParentPair>)
    ensures forall x | x in r :: x.parent == parent && x.node in edges
    ensures forall v | v in edges :: NodeParentPair(v, parent) in r
  {
    if edges == [] then [] else
      assert edges == [edges[0]] + edges[1..];
      [NodeParentPair(edges[0], parent)] + Pairs(edges[1..], parent)
  }

  /** The node is in the current level of the current tree. */
  predicate InFrontier(x: BfsNode, level: nat, tree: nat) { x.level == Some(level) && x.treeIndex == Some(tree) }

  /** All edges out of the current level. */
  function Neighbors(g: seq<BfsNode>, level: nat, tree: nat): (r: seq<NodeParentPair>)
  {
    if g == [] then [] else
      (if InFrontier(g[0], level, tree) then Pairs(g[0].edges, g[0].nodeIndex) else []) + Neighbors(g[1..], level, tree)
  }

  /** ReduceToIndex keeps one of the pairs of every node. */
  function ReducedPair(pairs: seq<NodeParentPair>, v: nat): (r: Option<NodeParentPair>)
    ensures r.Some? ==> r.value in pairs && r.value.node == v
    ensures r.None? ==> forall x | x in pairs :: x.node != v
  {
    if pairs == [] then None
    else if pairs[0].node == v then Some(pairs[0])
    else ReducedPair(pairs[1..], v)
  }

  function Advance(x: BfsNode, pair: Option<NodeParentPair>, level: nat, tree: nat): BfsNode {
    if pair.Some? && x.level.None?
    then x.(level := Some(level), parent := Some(pair.value.parent), treeIndex := Some(tree))
    else x
  }

  function AdvanceAll(g: seq<BfsNode>, pairs: seq<NodeParentPair>, level: nat, tree: nat): (r: seq<BfsNode>)
    ensures |r| == |g|
  {
    seq(|g|, i requires 0 <= i < |g| => Advance(g[i], ReducedPair(pairs, i), level, tree))
  }

  function StartTree(g: seq<BfsNode>, start: nat, tree: nat): (r: seq<BfsNode>)
    ensures |r| == |g|
  {
    seq(|g|, i requires 0 <= i < |g| =>
      if g[i].nodeIndex == start then g[i].(level := Some(0), parent := Some(start), treeIndex := Some(tree)) else g[i])
  }

  /** The graph as loaded: nothing is reached but the start. */
  function Loaded(e: seq<seq<nat>>, start: nat): (r: seq<BfsNode>)
    ensures |r| == |e|
  {
    StartTree(seq(|e|, i requires 0 <= i < |e| => BfsNode(e[i], i, None, None, None)), start, 0)
  }

  // ---------------------------------------------------------------- walks

  ghost predicate ValidEdges(e: seq<seq<nat>>) {
    forall v: nat, x: nat | v < |e| && x < |e[v]| :: e[v][x] < |e|
  }

  /** There is a walk of `d` edges from `u` to `v`. */
  ghost predicate Walk(e: seq<seq<nat>>, u: nat, v: nat, d: nat)
    decreases d
  {
    if d == 0 then u == v else exists w: nat :: w < |e| && Walk(e, u, w, d - 1) && v in e[w]
  }

  /** `d` is the shortest-path distance from `u` to `v`. */
  ghost predicate Distance(e: seq<seq<nat>>, u: nat, v: nat, d: nat) {
    Walk(e, u, v, d) && forall k: nat | k < d :: !Walk(e, u, v, k)
  }

  lemma WalkOn(e: seq<seq<nat>>, u: nat, w: nat, v: nat, d: nat, d': nat)
    requires w < |e| && Walk(e, u, w, d) && v in e[w] && d' == d + 1
    ensures Walk(e, u, v, d')
  {
  }

  // ---------------------------------------------------------------- what the search keeps

  ghost predicate Represents(g: seq<BfsNode>, e: seq<seq<nat>>) {
    |g| == |e| && ValidEdges(e) && forall v: nat | v < |g| :: g[v].edges == e[v] && g[v].nodeIndex == v
  }

  /** A reached node knows its exact distance from its tree's root, and a parent one level closer. */
  ghost predicate NodeRight(g: seq<BfsNode>, e: seq<seq<nat>>, roots: seq<nat>, v: nat)
    requires v < |g| == |e|
  {
    match g[v].level
    case None => g[v].treeIndex == None && g[v].parent == None
    case Some(d) =>
      && g[v].treeIndex.Some? && g[v].treeIndex.value < |roots| && Distance(e, roots[g[v].treeIndex.value], v, d)
      && g[v].parent.Some? && ParentRight(g, e, v, d, g[v].parent.value)
  }

  ghost predicate ParentRight(g: seq<BfsNode>, e: seq<seq<nat>>, v: nat, d: nat, p: nat)
    requires v < |g| == |e|
  {
    if d == 0 then p == v
    else p < |g| && v in e[p] && g[p].treeIndex == g[v].treeIndex && g[p].level == Some(d - 1)
  }

  /** Every edge out of `v` stays in the tree of `v` or leads to an earlier one. */
  ghost predicate StaysInside(g: seq<BfsNode>, e: seq<seq<nat>>, v: nat)
    requires v < |g| == |e|
  {
    && g[v].treeIndex.Some?
    && forall u | u in e[v] :: u < |g| && g[u].treeIndex.Some? && g[u].treeIndex.value <= g[v].treeIndex.value
  }

  /** A forest whose trees before `done` are finished. */
  ghost predicate Forest(g: seq<BfsNode>, e: seq<seq<nat>>, roots: seq<nat>, done: nat) {
    && Represents(g, e)
    && (forall v: nat | v < |g| :: NodeRight(g, e, roots, v))
    && (forall k: nat | k < |roots| && roots[k] < |g| :: g[roots[k]].treeIndex == Some(k))
    && (forall v: nat | v < |g| :: InsideIfDone(g, e, done, v))
  }

  ghost predicate InsideIfDone(g: seq<BfsNode>, e: seq<seq<nat>>, done: nat, v: nat)
    requires v < |g| == |e|
  {
    g[v].treeIndex.Some? && g[v].treeIndex.value < done ==> StaysInside(g, e, v)
  }

  /** The last tree has been searched up to `level`. */
  ghost predicate SearchedTo(g: seq<BfsNode>, e: seq<seq<nat>>, roots: seq<nat>, level: nat)
    requires |roots| > 0
  {
    var tree := |roots| - 1;
    && Forest(g, e, roots, tree)
    && (forall v: nat, d: nat | v < |g| && d <= level :: ReachedBy(g, e, roots[tree], v, d))
    && (forall v: nat | v < |g| :: WithinLevel(g, tree, level, v))
  }

  /** A node that a walk of `d` edges leads to has been reached. */
  ghost predicate ReachedBy(g: seq<BfsNode>, e: seq<seq<nat>>, root: nat, v: nat, d: nat)
    requires v < |g|
  {
    Walk(e, root, v, d) ==> g[v].level.Some?
  }

  ghost predicate WithinLevel(g: seq<BfsNode>, tree: nat, level: nat, v: nat)
    requires v < |g|
  {
    g[v].treeIndex == Some(tree) && g[v].level.Some? ==> g[v].level.value <= level
  }

  /** A node at this level of this tree. */
  ghost predicate HasLevel(g: seq<BfsNode>, tree: nat, level: nat) {
    exists v: nat :: v < |g| && InFrontier(g[v], level, tree)
  }

  lemma {:induction false} PairFrom(g: seq<BfsNode>, level: nat, tree: nat, x: NodeParentPair) returns (w: nat)
    requires x in Neighbors(g, level, tree)
    ensures w < |g| && InFrontier(g[w], level, tree) && x.parent == g[w].nodeIndex && x.node in g[w].edges
  {
    if x in Neighbors(g[1..], level, tree) {
      w := PairFrom(g[1..], level, tree, x);
      w := w + 1;
    } else {
      w := 0;
    }
  }

  lemma {:induction false} PairHeld(g: seq<BfsNode>, level: nat, tree: nat, w: nat, v: nat)
    requires w < |g| && InFrontier(g[w], level, tree) && v in g[w].edges
    ensures NodeParentPair(v, g[w].nodeIndex) in Neighbors(g, level, tree)
  {
    if w > 0 { PairHeld(g[1..], level, tree, w - 1, v); }
  }

  lemma PairIsEdge(g: seq<BfsNode>, e: seq<seq<nat>>, level: nat, tree: nat, x: NodeParentPair)
    requires Represents(g, e) && x in Neighbors(g, level, tree)
    ensures x.parent < |g| && InFrontier(g[x.parent], level, tree) && x.node in e[x.parent] && x.node < |g|
  {
    var i := PairFrom(g, level, tree, x);
    var k: nat :| k < |e[i]| && e[i][k] == x.node;
  }

  lemma EdgeIsPair(g: seq<BfsNode>, e: seq<seq<nat>>, level: nat, tree: nat, w: nat, v: nat)
    requires Represents(g, e) && w < |g| && InFrontier(g[w], level, tree) && v in e[w]
    ensures NodeParentPair(v, w) in Neighbors(g, level, tree)
  {
    PairHeld(g, level, tree, w, v);
  }

  // ---------------------------------------------------------------- one level

  /** The pairs of a node lead to it from the current level. */
  lemma PairOf(g: seq<BfsNode>, e: seq<seq<nat>>, level: nat, tree: nat, v: nat)
    requires Represents(g, e) && v < |g|
    ensures var r := ReducedPair(Neighbors(g, level, tree), v);
            && (r.Some? ==>
                  r.value.parent < |g| && InFrontier(g[r.value.parent], level, tree) && v in e[r.value.parent])
            && (forall w: nat | w < |g| && InFrontier(g[w], level, tree) && v in e[w] :: r.Some?)
  {
    var pairs := Neighbors(g, level, tree);
    var r := ReducedPair(pairs, v);
    if r.Some? { PairIsEdge(g, e, level, tree, r.value); }
    forall w: nat | w < |g| && InFrontier(g[w], level, tree) && v in e[w] ensures r.Some? {
      EdgeIsPair(g, e, level, tree, w, v);
    }
  }

  /** A node one edge behind a near node is reached after the step. */
  lemma NextNodeReached(g: seq<BfsNode>, e: seq<seq<nat>>, roots: seq<nat>, level: nat, w: nat, v: nat)
    requires |roots| > 0 && SearchedTo(g, e, roots, level) && v < |g| && w < |g| && v in e[w] && g[w].level.Some?
    ensures g[v].level.Some? || ReducedPair(Neighbors(g, level, |roots| - 1), v).Some?
  {
    var tree := |roots| - 1;
    assert NodeRight(g, e, roots, w) && NodeRight(g, e, roots, v) && InsideIfDone(g, e, tree, w)
        && WithinLevel(g, tree, level, w);
    if g[w].treeIndex.value == tree {
      if g[w].level.value < level {
        WalkOn(e, roots[tree], w, v, g[w].level.value, g[w].level.value + 1);
        assert ReachedBy(g, e, roots[tree], v, g[w].level.value + 1);
      } else {
        PairOf(g, e, level, tree, v);
      }
    }
  }

  /** Nodes at most `level` + 1 edges away are reached after the step. */
  lemma NearNodesReached(g: seq<BfsNode>, e: seq<seq<nat>>, roots: seq<nat>, level: nat, v: nat, d: nat)
    requires |roots| > 0 && SearchedTo(g, e, roots, level) && v < |g| && d <= level + 1
          && Walk(e, roots[|roots| - 1], v, d)
    ensures g[v].level.Some? || ReducedPair(Neighbors(g, level, |roots| - 1), v).Some?
  {
    var root := roots[|roots| - 1];
    if d == level + 1 {
      var w := LastStep(e, root, v, d);
      assert ReachedBy(g, e, root, w, level);
      NextNodeReached(g, e, roots, level, w, v);
    } else {
      assert ReachedBy(g, e, root, v, d);
    }
  }

  lemma LastStep(e: seq<seq<nat>>, u: nat, v: nat, d: nat) returns (w: nat)
    requires Walk(e, u, v, d) && d > 0
    ensures w < |e| && Walk(e, u, w, d - 1) && v in e[w]
  {
    w :| w < |e| && Walk(e, u, w, d - 1) && v in e[w];
  }

  /** A node reached in the step is at its exact distance: no shorter walk leads to it. */
  lemma NewNodeDistance(g: seq<BfsNode>, e: seq<seq<nat>>, roots: seq<nat>, level: nat, p: nat, v: nat, next: nat)
    requires |roots| > 0 && SearchedTo(g, e, roots, level) && v < |g| && g[v].level.None? && next == level + 1
    requires p < |g| && InFrontier(g[p], level, |roots| - 1) && v in e[p]
    ensures Distance(e, roots[|roots| - 1], v, next)
  {
    var root := roots[|roots| - 1];
    assert NodeRight(g, e, roots, p);
    WalkOn(e, root, p, v, level, next);
    forall k: nat | k < next ensures !Walk(e, root, v, k) { assert ReachedBy(g, e, root, v, k); }
  }

  lemma OldNodeRight(g: seq<BfsNode>, e: seq<seq<nat>>, roots: seq<nat>, pairs: seq<NodeParentPair>, v: nat,
                     next: nat, tree: nat)
    requires |g| == |e| && v < |g| && NodeRight(g, e, roots, v) && (g[v].level.Some? || ReducedPair(pairs, v).None?)
    ensures NodeRight(AdvanceAll(g, pairs, next, tree), e, roots, v)
  {
    if g[v].level.Some? && g[v].level.value > 0 { ReachedStays(g, pairs, next, tree, g[v].parent.value); }
  }

  lemma AdvancedRight(g: seq<BfsNode>, e: seq<seq<nat>>, roots: seq<nat>, pairs: seq<NodeParentPair>, v: nat, next: nat)
    requires |g| == |e| && v < |g| && g[v].level.None? && ReducedPair(pairs, v).Some? && |roots| > 0 && next > 0
    requires ReducedPair(pairs, v).value.parent < |g| && v in e[ReducedPair(pairs, v).value.parent]
    requires InFrontier(g[ReducedPair(pairs, v).value.parent], next - 1, |roots| - 1)
    requires Distance(e, roots[|roots| - 1], v, next)
    ensures NodeRight(AdvanceAll(g, pairs, next, |roots| - 1), e, roots, v)
  {
    ReachedStays(g, pairs, next, |roots| - 1, ReducedPair(pairs, v).value.parent);
  }

  lemma PairDistance(g: seq<BfsNode>, e: seq<seq<nat>>, roots: seq<nat>, level: nat, v: nat, next: nat, p: nat)
    requires |roots| > 0 && SearchedTo(g, e, roots, level) && v < |g| && next == level + 1 && g[v].level.None?
    requires var pair := ReducedPair(Neighbors(g, level, |roots| - 1), v); pair.Some? && pair.value.parent == p
    ensures p < |g| && v in e[p] && InFrontier(g[p], level, |roots| - 1) && Distance(e, roots[|roots| - 1], v, next)
  {
    PairOf(g, e, level, |roots| - 1, v);
    NewNodeDistance(g, e, roots, level, p, v, next);
  }

  lemma NewNodeRight(g: seq<BfsNode>, e: seq<seq<nat>>, roots: seq<nat>, level: nat, v: nat, next: nat,
                     pairs: seq<NodeParentPair>)
    requires |roots| > 0 && SearchedTo(g, e, roots, level) && v < |g| && next == level + 1
    requires pairs == Neighbors(g, level, |roots| - 1)
    ensures NodeRight(AdvanceAll(g, pairs, next, |roots| - 1), e, roots, v)
  {
    var tree := |roots| - 1;
    var pair := ReducedPair(pairs, v);
    assert NodeRight(g, e, roots, v);
    if g[v].level.None? && pair.Some? {
      PairDistance(g, e, roots, level, v, next, pair.value.parent);
      AdvancedRight(g, e, roots, pairs, v, next);
    } else {
      OldNodeRight(g, e, roots, pairs, v, next, tree);
    }
  }

  lemma ReachedStays(g: seq<BfsNode>, pairs: seq<NodeParentPair>, level: nat, tree: nat, v: nat)
    requires v < |g| && g[v].level.Some?
    ensures AdvanceAll(g, pairs, level, tree)[v] == g[v]
  {
  }

  lemma InsideStays(g: seq<BfsNode>, e: seq<seq<nat>>, roots: seq<nat>, done: nat, pairs: seq<NodeParentPair>,
                    level: nat, tree: nat, v: nat)
    requires Forest(g, e, roots, done) && v < |g| && StaysInside(g, e, v)
    ensures StaysInside(AdvanceAll(g, pairs, level, tree), e, v)
  {
    assert NodeRight(g, e, roots, v);
    forall u | u in e[v] ensures AdvanceAll(g, pairs, level, tree)[u] == g[u] { assert NodeRight(g, e, roots, u); }
  }

  /** The graph after the step that follows `level`. */
  ghost function Stepped(g: seq<BfsNode>, roots: seq<nat>, level: nat, next: nat): (r: seq<BfsNode>)
    requires |roots| > 0
    ensures |r| == |g|
  {
    AdvanceAll(g, Neighbors(g, level, |roots| - 1), next, |roots| - 1)
  }

  lemma InsideAdvances(g: seq<BfsNode>, e: seq<seq<nat>>, roots: seq<nat>, level: nat, next: nat, v: nat)
    requires |roots| > 0 && SearchedTo(g, e, roots, level) && v < |g|
    ensures InsideIfDone(Stepped(g, roots, level, next), e, |roots| - 1, v)
  {
    var tree := |roots| - 1;
    assert NodeRight(g, e, roots, v) && InsideIfDone(g, e, tree, v);
    if StaysInside(g, e, v) {
      InsideStays(g, e, roots, tree, Neighbors(g, level, tree), next, tree, v);
    } else {
      NotYetDone(g, Neighbors(g, level, tree), next, tree, v);
    }
  }

  lemma NotYetDone(g: seq<BfsNode>, pairs: seq<NodeParentPair>, next: nat, tree: nat, v: nat)
    requires v < |g| && !(g[v].treeIndex.Some? && g[v].treeIndex.value < tree)
    ensures var w := AdvanceAll(g, pairs, next, tree)[v]; !(w.treeIndex.Some? && w.treeIndex.value < tree)
  {
  }

  lemma WithinAdvances(g: seq<BfsNode>, e: seq<seq<nat>>, roots: seq<nat>, level: nat, next: nat, v: nat)
    requires |roots| > 0 && SearchedTo(g, e, roots, level) && v < |g| && next == level + 1
    ensures WithinLevel(Stepped(g, roots, level, next), |roots| - 1, next, v)
  {
    assert WithinLevel(g, |roots| - 1, level, v);
  }

  lemma RootAdvances(g: seq<BfsNode>, e: seq<seq<nat>>, roots: seq<nat>, level: nat, next: nat, k: nat)
    requires |roots| > 0 && SearchedTo(g, e, roots, level) && k < |roots| && roots[k] < |g|
    ensures Stepped(g, roots, level, next)[roots[k]].treeIndex == Some(k)
  {
    assert NodeRight(g, e, roots, roots[k]);
  }

  lemma ReachedAdvances(g: seq<BfsNode>, e: seq<seq<nat>>, roots: seq<nat>, level: nat, next: nat, v: nat, d: nat)
    requires |roots| > 0 && SearchedTo(g, e, roots, level) && v < |g| && next == level + 1 && d <= next
    ensures ReachedBy(Stepped(g, roots, level, next), e, roots[|roots| - 1], v, d)
  {
    if Walk(e, roots[|roots| - 1], v, d) { NearNodesReached(g, e, roots, level, v, d); }
  }

  /** One level of the search: every node one edge further on is reached, with its exact distance. */
  lemma LevelSearched(g: seq<BfsNode>, e: seq<seq<nat>>, roots: seq<nat>, level: nat, next: nat)
    requires |roots| > 0 && SearchedTo(g, e, roots, level) && next == level + 1
    ensures SearchedTo(Stepped(g, roots, level, next), e, roots, next)
  {
    var r, tree := Stepped(g, roots, level, next), |roots| - 1;
    var root := roots[tree];
    ForestAdvances(g, e, roots, level, next);
    forall v: nat | v < |r| ensures WithinLevel(r, tree, next, v) { WithinAdvances(g, e, roots, level, next, v); }
    forall v: nat, d: nat | v < |r| && d <= next ensures ReachedBy(r, e, root, v, d) {
      ReachedAdvances(g, e, roots, level, next, v, d);
    }
  }

  lemma ForestAdvances(g: seq<BfsNode>, e: seq<seq<nat>>, roots: seq<nat>, level: nat, next: nat)
    requires |roots| > 0 && SearchedTo(g, e, roots, level) && next == level + 1
    ensures Forest(Stepped(g, roots, level, next), e, roots, |roots| - 1)
  {
    var r := Stepped(g, roots, level, next);
    NodesAdvance(g, e, roots, level, next, r);
    DoneAdvance(g, e, roots, level, next, |roots| - 1, r);
    forall k: nat | k < |roots| && roots[k] < |r| ensures r[roots[k]].treeIndex == Some(k) {
      RootAdvances(g, e, roots, level, next, k);
    }
  }

  lemma NodesAdvance(g: seq<BfsNode>, e: seq<seq<nat>>, roots: seq<nat>, level: nat, next: nat, r: seq<BfsNode>)
    requires |roots| > 0 && SearchedTo(g, e, roots, level) && next == level + 1 && r == Stepped(g, roots, level, next)
    ensures forall v: nat | v < |r| :: NodeRight(r, e, roots, v)
  {
    forall v: nat | v < |r| ensures NodeRight(r, e, roots, v) {
      NewNodeRight(g, e, roots, level, v, next, Neighbors(g, level, |roots| - 1));
    }
  }

  lemma DoneAdvance(g: seq<BfsNode>, e: seq<seq<nat>>, roots: seq<nat>, level: nat, next: nat, tree: nat,
                    r: seq<BfsNode>)
    requires |roots| == tree + 1 && SearchedTo(g, e, roots, level) && r == Stepped(g, roots, level, next)
    ensures forall v: nat | v < |r| :: InsideIfDone(r, e, tree, v)
  {
    forall v: nat | v < |r| ensures InsideIfDone(r, e, tree, v) { InsideAdvances(g, e, roots, level, next, v); }
  }

  // ---------------------------------------------------------------- one tree, and the next

  lemma FinishedInside(g: seq<BfsNode>, e: seq<seq<nat>>, roots: seq<nat>, level: nat, v: nat, u: nat)
    requires |roots| > 0 && SearchedTo(g, e, roots, level) && Neighbors(g, level, |roots| - 1) == []
    requires v < |g| && g[v].treeIndex == Some(|roots| - 1) && u in e[v]
    ensures u < |g| && g[u].treeIndex.Some? && g[u].treeIndex.value < |roots|
  {
    var x: nat :| x < |e[v]| && e[v][x] == u;
    assert NodeRight(g, e, roots, u) && NodeRight(g, e, roots, v);
    NextNodeReached(g, e, roots, level, v, u);
  }

  /** When the last level has no edges, the tree is finished. */
  lemma TreeFinished(g: seq<BfsNode>, e: seq<seq<nat>>, roots: seq<nat>, level: nat)
    requires |roots| > 0 && SearchedTo(g, e, roots, level) && Neighbors(g, level, |roots| - 1) == []
    ensures Forest(g, e, roots, |roots|)
  {
    forall v: nat | v < |g| ensures InsideIfDone(g, e, |roots|, v) {
      assert InsideIfDone(g, e, |roots| - 1, v) && NodeRight(g, e, roots, v);
      if g[v].treeIndex == Some(|roots| - 1) {
        forall u | u in e[v] ensures u < |g| && g[u].treeIndex.Some? && g[u].treeIndex.value <= |roots| - 1 {
          FinishedInside(g, e, roots, level, v, u);
        }
      }
    }
  }

  /** From the roots of finished trees no later tree can be reached. */
  lemma {:induction false} WalksStayInside(g: seq<BfsNode>, e: seq<seq<nat>>, roots: seq<nat>, u: nat, v: nat, d: nat)
    requires Forest(g, e, roots, |roots|) && u < |g| && v < |g| && g[u].treeIndex.Some? && Walk(e, u, v, d)
    ensures g[v].treeIndex.Some? && g[v].treeIndex.value <= g[u].treeIndex.value
    decreases d
  {
    if d > 0 {
      var w := LastStep(e, u, v, d);
      WalksStayInside(g, e, roots, u, w, d - 1);
      assert NodeRight(g, e, roots, w) && InsideIfDone(g, e, |roots|, w);
    }
  }

  lemma NextTreeForest(g: seq<BfsNode>, e: seq<seq<nat>>, roots: seq<nat>, start: nat)
    requires Forest(g, e, roots, |roots|) && start < |g| && g[start].level.None?
    ensures Forest(StartTree(g, start, |roots|), e, roots + [start], |roots|)
  {
    var tree, r, roots' := |roots|, StartTree(g, start, |roots|), roots + [start];
    assert NodeRight(g, e, roots, start);
    forall v: nat | v < |r| ensures NodeRight(r, e, roots', v) {
      assert NodeRight(g, e, roots, v);
      if v == start { assert Distance(e, start, start, 0); }
    }
    forall k: nat | k < |roots'| && roots'[k] < |r| ensures r[roots'[k]].treeIndex == Some(k) { }
    forall v: nat | v < |r| ensures InsideIfDone(r, e, tree, v) { assert InsideIfDone(g, e, tree, v); }
  }

  /** Starting a new tree at an unreached node. */
  lemma NextTree(g: seq<BfsNode>, e: seq<seq<nat>>, roots: seq<nat>, start: nat)
    requires Forest(g, e, roots, |roots|) && start < |g| && g[start].level.None?
    ensures SearchedTo(StartTree(g, start, |roots|), e, roots + [start], 0)
  {
    var r := StartTree(g, start, |roots|);
    NextTreeForest(g, e, roots, start);
    forall v: nat, d: nat | v < |r| && d <= 0 ensures ReachedBy(r, e, start, v, d) { }
    forall v: nat | v < |r| ensures WithinLevel(r, |roots|, 0, v) { assert NodeRight(g, e, roots, v); }
  }

  /** The graph as loaded, with a start that may lie outside it. */
  lemma LoadedIsSearched(e: seq<seq<nat>>, start: nat)
    requires ValidEdges(e)
    ensures SearchedTo(Loaded(e, start), e, [start], 0)
  {
    var g := Loaded(e, start);
    forall v: nat | v < |g| ensures NodeRight(g, e, [start], v) {
      if v == start { assert Distance(e, start, start, 0); }
    }
    forall v: nat, d: nat | v < |g| && d <= 0 ensures ReachedBy(g, e, start, v, d) { }
  }

  // ---------------------------------------------------------------- the loops

  ghost function Unreached(g: seq<BfsNode>): set<nat> {
    set v: nat | v < |g| && g[v].level.None?
  }

  /** Nothing changes but unreached nodes, which become nodes of `tree`. */
  ghost predicate Extends(g0: seq<BfsNode>, g: seq<BfsNode>, tree: nat) {
    && |g| == |g0|
    && forall v: nat | v < |g| :: g[v] == g0[v] || (g0[v].level.None? && g[v].treeIndex == Some(tree))
  }

  /** BFSNextLevel: false when the current level has no edges, otherwise the next level is reached. */
  method BFSNextLevel(g: seq<BfsNode>, currentLevel: nat, tree: nat, ghost e: seq<seq<nat>>, ghost roots: seq<nat>)
    returns (more: bool, g': seq<BfsNode>, level: nat)
    requires |roots| == tree + 1 && SearchedTo(g, e, roots, currentLevel)
    ensures !more ==> g' == g && level == currentLevel && Neighbors(g, currentLevel, tree) == []
    ensures more ==> level == currentLevel + 1 && g' == Stepped(g, roots, currentLevel, level)
                     && HasLevel(g, tree, currentLevel) && HasEdgeAt(g', tree, currentLevel)
  {
    var neighbors := Neighbors(g, currentLevel, tree);
    if |neighbors| == 0 { return false, g, currentLevel; }
    more, level, g' := true, currentLevel + 1, AdvanceAll(g, neighbors, currentLevel + 1, tree);
    assert neighbors[0] in neighbors;
    PairIsEdge(g, e, currentLevel, tree, neighbors[0]);
    ghost var p := neighbors[0].parent;
    ReachedStays(g, neighbors, level, tree, p);
    assert InFrontier(g'[p], currentLevel, tree) && g'[p].edges != [];
  }

  /** A step that reaches a node at the next level leaves fewer unreached, and none leaves more. */
  lemma StepReaches(g: seq<BfsNode>, e: seq<seq<nat>>, roots: seq<nat>, level: nat, next: nat)
    requires |roots| > 0 && SearchedTo(g, e, roots, level) && next == level + 1
    ensures var g' := Stepped(g, roots, level, next);
            && Extends(g, g', |roots| - 1) && Unreached(g') <= Unreached(g)
            && (HasLevel(g', |roots| - 1, next) ==> Unreached(g') < Unreached(g))
  {
    var g' := Stepped(g, roots, level, next);
    if HasLevel(g', |roots| - 1, next) {
      var v: nat :| v < |g'| && InFrontier(g'[v], next, |roots| - 1);
      NewlyReached(g, e, roots, level, Neighbors(g, level, |roots| - 1), next, v);
    }
  }

  lemma NewlyReached(g: seq<BfsNode>, e: seq<seq<nat>>, roots: seq<nat>, level: nat, pairs: seq<NodeParentPair>,
                     next: nat, v: nat)
    requires |roots| > 0 && SearchedTo(g, e, roots, level) && next == level + 1 && v < |g|
    requires InFrontier(AdvanceAll(g, pairs, next, |roots| - 1)[v], next, |roots| - 1)
    ensures Unreached(AdvanceAll(g, pairs, next, |roots| - 1)) < Unreached(g)
  {
    assert WithinLevel(g, |roots| - 1, level, v);
    assert v in Unreached(g) && v !in Unreached(AdvanceAll(g, pairs, next, |roots| - 1));
  }

  /** Some node at this level of this tree has an edge. */
  ghost predicate HasEdgeAt(g: seq<BfsNode>, tree: nat, level: nat) {
    exists v: nat :: v < |g| && InFrontier(g[v], level, tree) && g[v].edges != []
  }

  /** The depth of a tree. */
  ghost predicate Deepest(g: seq<BfsNode>, tree: nat, depth: nat) {
    HasLevel(g, tree, depth) && forall v: nat | v < |g| :: WithinLevel(g, tree, depth, v)
  }

  /** The levels of a tree: its depth, and one more exactly when some node that deep has an edge; zero for
      a start outside the graph. */
  ghost predicate LevelsRight(g: seq<BfsNode>, info: TreeInfo, k: nat) {
    if info.startIndex < |g| then exists depth: nat :: LevelsFor(g, info, k, depth) else info.levels == 0
  }

  ghost predicate AllLevelsRight(g: seq<BfsNode>, infos: seq<TreeInfo>) {
    forall k: nat | k < |infos| :: LevelsRight(g, infos[k], k)
  }

  ghost predicate LevelsFor(g: seq<BfsNode>, info: TreeInfo, k: nat, depth: nat) {
    Deepest(g, k, depth) && info.levels == depth + (if HasEdgeAt(g, k, depth) then 1 else 0)
  }

  /** When the levels of a tree are one more than its depth. */
  lemma LevelsAreDepth(g: seq<BfsNode>, info: TreeInfo, k: nat, depth: nat)
    requires LevelsRight(g, info, k) && info.startIndex < |g| && Deepest(g, k, depth)
    ensures info.levels == depth + 1 <==> HasEdgeAt(g, k, depth)
    ensures info.levels == depth <==> !HasEdgeAt(g, k, depth)
  {
    var d: nat :| LevelsFor(g, info, k, d);
    DeepestIsUnique(g, k, d, depth);
  }

  lemma DeepestIsUnique(g: seq<BfsNode>, tree: nat, a: nat, b: nat)
    requires Deepest(g, tree, a) && Deepest(g, tree, b)
    ensures a == b
  {
    var v: nat :| v < |g| && InFrontier(g[v], a, tree);
    var w: nat :| w < |g| && InFrontier(g[w], b, tree);
    assert WithinLevel(g, tree, b, v) && WithinLevel(g, tree, a, w);
  }

  lemma {:induction false} WalksStartInside(e: seq<seq<nat>>, u: nat, v: nat, d: nat)
    requires Walk(e, u, v, d) && v < |e|
    ensures u < |e|
    decreases d
  {
    if d > 0 {
      var w := LastStep(e, u, v, d);
      WalksStartInside(e, u, w, d - 1);
    }
  }

  /** A tree whose root lies outside the graph is empty. */
  lemma RootInside(g: seq<BfsNode>, e: seq<seq<nat>>, roots: seq<nat>, tree: nat, level: nat)
    requires Represents(g, e) && (forall v: nat | v < |g| :: NodeRight(g, e, roots, v)) && tree < |roots|
          && HasLevel(g, tree, level)
    ensures roots[tree] < |g|
  {
    var v: nat :| v < |g| && InFrontier(g[v], level, tree);
    assert NodeRight(g, e, roots, v);
    WalksStartInside(e, roots[tree], v, level);
  }

  /** While a tree is searched: it is there down to the level above, and only its nodes are new. */
  ghost predicate Growing(g0: seq<BfsNode>, g: seq<BfsNode>, e: seq<seq<nat>>, roots: seq<nat>, level: nat)
    requires |roots| > 0
  {
    var tree := |roots| - 1;
    && SearchedTo(g, e, roots, level) && Unreached(g) <= Unreached(g0) && Extends(g0, g, tree)
    && (if roots[tree] < |g|
        then HasLevel(g, tree, level) || (level > 0 && HasEdgeAt(g, tree, level - 1))
        else level == 0)
  }

  lemma StartsGrowing(g: seq<BfsNode>, e: seq<seq<nat>>, roots: seq<nat>)
    requires |roots| > 0 && SearchedTo(g, e, roots, 0)
    ensures Growing(g, g, e, roots, 0)
  {
    var tree := |roots| - 1;
    if roots[tree] < |g| { assert NodeRight(g, e, roots, roots[tree]) && WithinLevel(g, tree, 0, roots[tree]); }
  }

  lemma Grows(g0: seq<BfsNode>, g: seq<BfsNode>, e: seq<seq<nat>>, roots: seq<nat>, level: nat, next: nat)
    requires |roots| > 0 && Growing(g0, g, e, roots, level) && next == level + 1
    requires HasLevel(g, |roots| - 1, level) && HasEdgeAt(Stepped(g, roots, level, next), |roots| - 1, level)
    ensures var g' := Stepped(g, roots, level, next);
            && Growing(g0, g', e, roots, next) && Unreached(g') <= Unreached(g)
            && (HasLevel(g', |roots| - 1, next) ==> Unreached(g') < Unreached(g))
  {
    LevelSearched(g, e, roots, level, next);
    StepReaches(g, e, roots, level, next);
    RootInside(g, e, roots, |roots| - 1, level);
  }

  /** At the end of a tree, the level counted to is right. */
  lemma LevelsCounted(g0: seq<BfsNode>, g: seq<BfsNode>, e: seq<seq<nat>>, roots: seq<nat>, level: nat)
    requires |roots| > 0 && Growing(g0, g, e, roots, level) && Neighbors(g, level, |roots| - 1) == []
    ensures LevelsRight(g, TreeInfo(roots[|roots| - 1], level), |roots| - 1)
  {
    var tree := |roots| - 1;
    var info := TreeInfo(roots[tree], level);
    NoEdgesLeft(g, e, tree, level);
    if roots[tree] < |g| {
      if HasLevel(g, tree, level) {
        assert LevelsFor(g, info, tree, level);
      } else {
        LevelAbove(g, tree, level, level - 1);
        assert LevelsFor(g, info, tree, level - 1);
      }
    }
  }

  lemma NoEdgesLeft(g: seq<BfsNode>, e: seq<seq<nat>>, tree: nat, level: nat)
    requires Represents(g, e) && Neighbors(g, level, tree) == []
    ensures !HasEdgeAt(g, tree, level)
  {
    if v: nat :| v < |g| && InFrontier(g[v], level, tree) && g[v].edges != [] {
      EdgeIsPair(g, e, level, tree, v, g[v].edges[0]);
    }
  }

  lemma LevelAbove(g: seq<BfsNode>, tree: nat, level: nat, above: nat)
    requires level == above + 1 && HasEdgeAt(g, tree, above) && !HasLevel(g, tree, level)
    requires forall v: nat | v < |g| :: WithinLevel(g, tree, level, v)
    ensures Deepest(g, tree, above)
  {
    forall v: nat | v < |g| ensures WithinLevel(g, tree, above, v) {
      assert WithinLevel(g, tree, level, v);
      assert !InFrontier(g[v], level, tree);
    }
  }

  /** The inner loop of BFS: one tree, to its end. */
  method SearchTree(g0: seq<BfsNode>, tree: nat, ghost e: seq<seq<nat>>, ghost roots: seq<nat>)
    returns (g: seq<BfsNode>, level: nat)
    requires |roots| == tree + 1 && SearchedTo(g0, e, roots, 0)
    ensures Forest(g, e, roots, |roots|) && Growing(g0, g, e, roots, level) && Neighbors(g, level, tree) == []
  {
    g, level := g0, 0;
    var more := true;
    StartsGrowing(g, e, roots);
    while more
      invariant Growing(g0, g, e, roots, level)
      invariant !more ==> Neighbors(g, level, tree) == []
      decreases Unreached(g), if HasLevel(g, tree, level) then 1 else 0, more
    {
      ghost var before, old' := g, level;
      more, g, level := BFSNextLevel(g, level, tree, e, roots);
      if more { Grows(g0, before, e, roots, old', level); }
    }
    TreeFinished(g, e, roots, level);
  }

  /** PrepareNextTree: an unreached node becomes the root of the next tree; false when all are reached. */
  method PrepareNextTree(g: seq<BfsNode>, tree: nat, start: nat, ghost e: seq<seq<nat>>, ghost roots: seq<nat>)
    returns (more: bool, g': seq<BfsNode>, start': nat)
    requires |roots| == tree && Forest(g, e, roots, tree)
    ensures more <==> Unreached(g) != {}
    ensures !more ==> g' == g
    ensures more ==> SearchedTo(g', e, roots + [start'], 0) && Unreached(g') < Unreached(g) && Extends(g, g', tree)
  {
    var found: Option<nat> := None;
    for i := 0 to |g|
      invariant found.Some? ==> found.value < |g| && g[found.value].level.None?
      invariant found.None? ==> forall v: nat | v < i :: g[v].level.Some?
    {
      if found.None? && g[i].level.None? { found := Some(i); }
    }
    if found.None? { return false, g, start; }
    assert found.value in Unreached(g);
    NextTree(g, e, roots, found.value);
    assert NodeRight(g, e, roots, found.value);
    more, start', g' := true, found.value, StartTree(g, found.value, tree);
    assert found.value !in Unreached(g');
  }

  ghost function Roots(infos: seq<TreeInfo>): (r: seq<nat>)
    ensures |r| == |infos|
  {
    seq<nat>(|infos|, k requires 0 <= k < |infos| => infos[k].startIndex)
  }

  lemma LevelsStay(g0: seq<BfsNode>, g: seq<BfsNode>, e: seq<seq<nat>>, roots: seq<nat>, info: TreeInfo, k: nat,
                   tree: nat)
    requires k < tree && Extends(g0, g, tree) && LevelsRight(g0, info, k)
    requires Represents(g0, e) && forall v: nat | v < |g0| :: NodeRight(g0, e, roots, v)
    ensures LevelsRight(g, info, k)
  {
    if info.startIndex < |g0| {
      var depth: nat :| LevelsFor(g0, info, k, depth);
      DepthStays(g0, g, e, roots, k, tree, depth);
      assert LevelsFor(g, info, k, depth);
    }
  }

  lemma DepthStays(g0: seq<BfsNode>, g: seq<BfsNode>, e: seq<seq<nat>>, roots: seq<nat>, k: nat, tree: nat, depth: nat)
    requires k < tree && Extends(g0, g, tree) && Represents(g0, e)
          && forall v: nat | v < |g0| :: NodeRight(g0, e, roots, v)
    requires Deepest(g0, k, depth)
    ensures Deepest(g, k, depth) && (HasEdgeAt(g, k, depth) <==> HasEdgeAt(g0, k, depth))
  {
    forall v: nat | v < |g| ensures WithinLevel(g, k, depth, v) && (InFrontier(g[v], depth, k) ==> g[v] == g0[v]) {
      assert WithinLevel(g0, k, depth, v);
    }
    forall v: nat | v < |g0| && InFrontier(g0[v], depth, k) ensures g[v] == g0[v] { }
  }

  /** BFS: a forest of exact distances; with `fullBfs` it holds every node. */
  method BFS(e: seq<seq<nat>>, startIndex: nat, fullBfs: bool) returns (g: seq<BfsNode>, infos: seq<TreeInfo>)
    requires ValidEdges(e)
    ensures |infos| > 0 && infos[0].startIndex == startIndex && (!fullBfs ==> |infos| == 1)
    ensures Forest(g, e, Roots(infos), |infos|)
    ensures AllLevelsRight(g, infos)
    ensures fullBfs ==> Unreached(g) == {}
  {
    var start, tree: nat, more := startIndex, 0, true;
    g, infos := Loaded(e, startIndex), [];
    LoadedIsSearched(e, startIndex);
    assert Roots([]) + [start] == [start];
    while more
      invariant |infos| == tree && (tree > 0 ==> infos[0].startIndex == startIndex)
      invariant tree == 0 ==> more && start == startIndex
      invariant more ==> SearchedTo(g, e, Roots(infos) + [start], 0)
      invariant more && tree > 0 ==> fullBfs
      invariant !more
             ==> Forest(g, e, Roots(infos), tree) && (fullBfs ==> Unreached(g) == {}) && (!fullBfs ==> tree == 1)
      invariant AllLevelsRight(g, infos)
      decreases Unreached(g), more
    {
      g, infos := FinishTree(g, tree, start, e, infos);
      tree := tree + 1;
      more := false;
      if fullBfs {
        ghost var before := g;
        more, g, start := PrepareNextTree(g, tree, start, e, Roots(infos));
        if more { OldLevelsStay(before, g, e, Roots(infos), infos, tree); }
      }
    }
  }

  method FinishTree(g0: seq<BfsNode>, tree: nat, start: nat, ghost e: seq<seq<nat>>, infos0: seq<TreeInfo>)
    returns (g: seq<BfsNode>, infos: seq<TreeInfo>)
    requires |infos0| == tree && SearchedTo(g0, e, Roots(infos0) + [start], 0)
    requires AllLevelsRight(g0, infos0)
    ensures |infos| == tree + 1 && infos[..tree] == infos0 && infos[tree].startIndex == start
    ensures Forest(g, e, Roots(infos), |infos|) && Unreached(g) <= Unreached(g0)
    ensures AllLevelsRight(g, infos)
  {
    ghost var roots := Roots(infos0) + [start];
    var level: nat;
    g, level := SearchTree(g0, tree, e, roots);
    infos := infos0 + [TreeInfo(start, level)];
    assert Roots(infos) == roots;
    LevelsCounted(g0, g, e, roots, level);
    OldLevelsStay(g0, g, e, roots, infos0, tree);
    OneMoreLevels(g, infos0, TreeInfo(start, level), tree);
  }

  lemma OneMoreLevels(g: seq<BfsNode>, infos: seq<TreeInfo>, last: TreeInfo, tree: nat)
    requires |infos| == tree && AllLevelsRight(g, infos) && LevelsRight(g, last, tree)
    ensures AllLevelsRight(g, infos + [last])
  {
  }

  lemma OldLevelsStay(g0: seq<BfsNode>, g: seq<BfsNode>, e: seq<seq<nat>>, roots: seq<nat>, infos: seq<TreeInfo>,
                      tree: nat)
    requires |infos| == tree && Extends(g0, g, tree) && Represents(g0, e)
    requires forall v: nat | v < |g0| :: NodeRight(g0, e, roots, v)
    requires AllLevelsRight(g0, infos)
    ensures AllLevelsRight(g, infos)
  {
    forall k: nat | k < |infos| ensures LevelsRight(g, infos[k], k) {
      LevelsStay(g0, g, e, roots, infos[k], k, tree);
    }
  }

  /** In a finished forest, a node of a later tree cannot be reached from the root of an earlier one. */
  lemma TreesApart(g: seq<BfsNode>, e: seq<seq<nat>>, roots: seq<nat>, j: nat, v: nat, d: nat)
    requires Forest(g, e, roots, |roots|) && j < |roots| && roots[j] < |g| && v < |g|
    requires g[v].treeIndex.Some? && j < g[v].treeIndex.value
    ensures !Walk(e, roots[j], v, d)
  {
    if Walk(e, roots[j], v, d) { WalksStayInside(g, e, roots, roots[j], v, d); }
  }

  /** With a single tree, exactly the nodes that can be reached from its root are reached. */
  lemma TreeIsReachable(g: seq<BfsNode>, e: seq<seq<nat>>, root: nat, v: nat)
    requires Forest(g, e, [root], 1) && root < |g| && v < |g|
    ensures g[v].level.Some? <==> exists d: nat :: Walk(e, root, v, d)
  {
    assert NodeRight(g, e, [root], v) && [root][0] == root;
    if g[v].level.Some? { assert Walk(e, root, v, g[v].level.value); }
    if d: nat :| Walk(e, root, v, d) { WalksStayInside(g, e, [root], root, v, d); }
  }

  /** Both kinds: after the edge from 0 to 1, the levels are 1 when 1 has no edge, and 2 when it has one back. */
  lemma LevelsOfTwoNodes(e: seq<seq<nat>>, g: seq<BfsNode>, infos: seq<TreeInfo>)
    requires |e| == 2 && e[0] == [1] && (e[1] == [] || e[1] == [0])
    requires |infos| == 1 && infos[0].startIndex == 0 && Forest(g, e, Roots(infos), 1) && LevelsRight(g, infos[0], 0)
    ensures infos[0].levels == if e[1] == [] then 1 else 2
  {
    assert Roots(infos) == [0];
    assert NodeRight(g, e, [0], 0) && NodeRight(g, e, [0], 1) && InsideIfDone(g, e, 1, 0);
    assert Walk(e, 0, 0, 0);
    WalkOn(e, 0, 0, 1, 0, 1);
    assert 1 in e[0];
    assert InFrontier(g[0], 0, 0) && InFrontier(g[1], 1, 0);
    assert Deepest(g, 0, 1);
    LevelsAreDepth(g, infos[0], 0, 1);
    assert HasEdgeAt(g, 0, 1) <==> e[1] != [];
  }
}
