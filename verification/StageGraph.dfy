/**
 The graph of DIA nodes that stages run over (thrill/api/dia_base.hpp, thrill/api/dia_node.hpp), with a
 history of executions and deliveries.

 Nodes are numbered by dia_id.  `edges` keeps the parents a node was created with; `parents` and
 `children` are what is left of them.  Collapse nodes only forward data: they never execute, and data
 reaches a node through any chain of them.
 */
module StageGraph {
  import opened Lists

  datatype DIAState = New | Executed

  /** An entry in a node's list of children: the child, and this edge's place among the child's parents. */
  datatype Child = Child(node: nat, index: nat)

  datatype Event = Execute(node: nat) | Deliver(node: nat, index: nat)

  datatype Graph = Graph(forward: seq<bool>, state: seq<DIAState>, parents: seq<seq<nat>>, children: seq<seq<Child>>,
                         edges: seq<seq<nat>>, log: seq<Event>)

  // ---------------------------------------------------------------- what links nodes

  ghost predicate Sized(g: Graph) {
    |g.forward| == |g.state| == |g.parents| == |g.children| == |g.edges|
  }

  ghost predicate EdgesAscend(g: Graph)
    requires Sized(g)
  {
    forall c: nat, i: nat | c < |g.edges| && i < |g.edges[c]| :: g.edges[c][i] < c
  }

  /** The edge into `c` at place `i` is still there. */
  ghost predicate Pending(g: Graph, c: nat, i: nat)
    requires Sized(g) && EdgesAscend(g) && c < |g.edges| && i < |g.edges[c]|
  {
    Child(c, i) in g.children[g.edges[c][i]]
  }

  ghost predicate IsEdge(g: Graph, u: nat, ch: Child)
    requires Sized(g)
  {
    ch.node < |g.edges| && ch.index < |g.edges[ch.node]| && g.edges[ch.node][ch.index] == u
  }

  /** The lists of one node: its children are edges out of it, its parents are those of its pending edges. */
  ghost predicate NodeLinked(g: Graph, v: nat)
    requires Sized(g) && EdgesAscend(g) && v < |g.edges|
  {
    && (forall ch | ch in g.children[v] :: IsEdge(g, v, ch))
    && Distinct(g.children[v])
    && (forall i: nat | i < |g.edges[v]| :: Pending(g, v, i) <==> g.edges[v][i] in g.parents[v])
    && (forall u | u in g.parents[v] :: u in g.edges[v])
  }

  /** Collapse nodes have one parent, keep it, and are never executed. */
  ghost predicate ForwardNode(g: Graph, v: nat)
    requires Sized(g) && v < |g.edges|
  {
    g.forward[v] ==> |g.edges[v]| == 1 && g.parents[v] == g.edges[v] && g.state[v] == New
  }

  ghost predicate Linked(g: Graph) {
    && Sized(g) && EdgesAscend(g)
    && (forall v: nat | v < |g.edges| :: NodeLinked(g, v))
    && (forall v: nat | v < |g.edges| :: ForwardNode(g, v))
  }

  /** The node whose data comes through `u`: `u` itself, or what its chain of Collapse nodes starts from. */
  ghost function Source(g: Graph, u: nat): (s: nat)
    requires Linked(g) && u < |g.edges|
    ensures s <= u && !g.forward[s]
  {
    assert ForwardNode(g, u);
    if g.forward[u] then Source(g, g.edges[u][0]) else u
  }

  // ---------------------------------------------------------------- the history

  ghost predicate HistoryOfNode(g: Graph, v: nat)
    requires Sized(g) && EdgesAscend(g) && v < |g.edges|
  {
    && (Execute(v) in g.log <==> g.state[v] == Executed)
    && (g.state[v] == Executed ==> g.parents[v] == [])
    && forall i: nat | i < |g.edges[v]| :: Deliver(v, i) in g.log <==> !Pending(g, v, i)
  }

  /** Event `k` happened in time: a node executes after all its edges delivered, an edge delivers after its
      source executed. */
  ghost predicate InTime(g: Graph, k: nat)
    requires Linked(g) && k < |g.log|
  {
    match g.log[k]
    case Execute(v) => v < |g.edges| && !g.forward[v] && forall i: nat | i < |g.edges[v]| :: Deliver(v, i) in g.log[..k]
    case Deliver(v, i) => v < |g.edges| && !g.forward[v] && i < |g.edges[v]|
                          && Execute(Source(g, g.edges[v][i])) in g.log[..k]
  }

  /** Nothing happens twice, everything happens in time, and the lists show what has happened. */
  ghost predicate History(g: Graph)
    requires Linked(g)
  {
    && Distinct(g.log)
    && (forall k: nat | k < |g.log| :: InTime(g, k))
    && forall v: nat | v < |g.edges| :: HistoryOfNode(g, v)
  }

  ghost predicate ValidGraph(g: Graph) { Linked(g) && History(g) }

  /** Whatever a node's edges draw data from executed before the node itself. */
  lemma SourcesRanBefore(g: Graph, v: nat, i: nat) returns (p: nat, k: nat)
    requires ValidGraph(g) && v < |g.edges| && g.state[v] == Executed && i < |g.edges[v]|
    ensures p < k < |g.log| && g.log[k] == Execute(v) && g.edges[v][i] < v
    ensures g.log[p] == Execute(Source(g, g.edges[v][i]))
  {
    assert HistoryOfNode(g, v);
    k :| 0 <= k < |g.log| && g.log[k] == Execute(v);
    assert InTime(g, k);
    var d := IndexIn(Deliver(v, i), g.log[..k]);
    assert g.log[d] == Deliver(v, i) && InTime(g, d);
    p := IndexIn(Execute(Source(g, g.edges[v][i])), g.log[..d]);
  }

  // ---------------------------------------------------------------- pruning

  function KeepForward(forward: seq<bool>, s: seq<Child>): (r: seq<Child>)
    ensures forall ch | ch in r :: ch in s && ch.node < |forward| && forward[ch.node]
    ensures forall ch | ch in s && ch.node < |forward| && forward[ch.node] :: ch in r
  {
    if s == [] then [] else
      var rest := KeepForward(forward, s[..|s| - 1]);
      var last := s[|s| - 1];
      assert s == s[..|s| - 1] + [last];
      if last.node < |forward| && forward[last.node] then rest + [last] else rest
  }

  function Without(s: seq<nat>, gone: set<nat>): (r: seq<nat>)
    ensures forall u :: u in r <==> u in s && u !in gone
  {
    if s == [] then [] else
      var rest := Without(s[..|s| - 1], gone);
      var last := s[|s| - 1];
      assert s == s[..|s| - 1] + [last];
      if last in gone then rest else rest + [last]
  }

  /** All edges from the nodes of `gone` to executable nodes removed, at both ends. */
  ghost function Prune(g: Graph, gone: set<nat>): (r: Graph)
    requires Sized(g)
    ensures Sized(r)
  {
    var n := |g.edges|;
    g.(children := seq(n, u requires 0 <= u < n =>
                     if u in gone then KeepForward(g.forward, g.children[u]) else g.children[u]),
       parents := seq(n, v requires 0 <= v < n => if g.forward[v] then g.parents[v] else Without(g.parents[v], gone)))
  }

  lemma {:induction false} KeepForwardDistinct(forward: seq<bool>, s: seq<Child>)
    requires Distinct(s)
    ensures Distinct(KeepForward(forward, s))
  {
    if s != [] {
      var front, last := s[..|s| - 1], s[|s| - 1];
      var rest := KeepForward(forward, front);
      KeepForwardDistinct(forward, front);
      assert last !in front && last !in rest;
      assert KeepForward(forward, s) == rest || KeepForward(forward, s) == rest + [last];
    }
  }

  lemma {:induction false} KeepForwardTwice(forward: seq<bool>, s: seq<Child>)
    ensures KeepForward(forward, KeepForward(forward, s)) == KeepForward(forward, s)
  {
    if s != [] {
      KeepForwardTwice(forward, s[..|s| - 1]);
      var rest := KeepForward(forward, s[..|s| - 1]);
      assert (rest + [s[|s| - 1]])[..|rest|] == rest;
    }
  }

  lemma {:induction false} WithoutTwice(s: seq<nat>, a: set<nat>, b: set<nat>)
    ensures Without(Without(s, a), b) == Without(s, a + b)
  {
    if s != [] {
      WithoutTwice(s[..|s| - 1], a, b);
      var rest := Without(s[..|s| - 1], a);
      assert (rest + [s[|s| - 1]])[..|rest|] == rest;
    }
  }

  lemma {:induction false} WithoutNothing(s: seq<nat>, gone: set<nat>)
    requires forall u | u in s :: u !in gone
    ensures Without(s, gone) == s
  {
    if s != [] {
      assert s == s[..|s| - 1] + [s[|s| - 1]];
      WithoutNothing(s[..|s| - 1], gone);
    }
  }

  lemma PruneTwice(g: Graph, a: set<nat>, b: set<nat>)
    requires Sized(g)
    ensures Prune(Prune(g, a), b) == Prune(g, a + b)
  {
    var n, x, y := |g.edges|, Prune(Prune(g, a), b), Prune(g, a + b);
    forall u: nat | u < n ensures x.children[u] == y.children[u] && x.parents[u] == y.parents[u] {
      KeepForwardTwice(g.forward, g.children[u]);
      WithoutTwice(g.parents[u], a, b);
    }
    assert x.children == y.children && x.parents == y.parents;
  }

  lemma PrunedEdge(g: Graph, gone: set<nat>, c: nat, i: nat)
    requires Linked(g) && c < |g.edges| && i < |g.edges[c]|
    ensures Pending(Prune(g, gone), c, i) <==> Pending(g, c, i) && (g.forward[c] || g.edges[c][i] !in gone)
  {
  }

  lemma PruneKeepsNode(g: Graph, gone: set<nat>, v: nat)
    requires Linked(g) && v < |g.edges| && EdgesAscend(Prune(g, gone))
    ensures NodeLinked(Prune(g, gone), v)
  {
    var r := Prune(g, gone);
    assert NodeLinked(g, v) && ForwardNode(g, v);
    KeepForwardDistinct(g.forward, g.children[v]);
    forall i: nat | i < |g.edges[v]| ensures Pending(r, v, i) <==> g.edges[v][i] in r.parents[v] {
      PrunedEdge(g, gone, v, i);
      assert Pending(g, v, i) <==> g.edges[v][i] in g.parents[v];
    }
    forall ch | ch in r.children[v] ensures IsEdge(r, v, ch) { assert IsEdge(g, v, ch); }
  }

  lemma PruneKeepsLinks(g: Graph, gone: set<nat>)
    requires Linked(g)
    ensures Linked(Prune(g, gone))
  {
    var r := Prune(g, gone);
    assert EdgesAscend(r);
    forall v: nat | v < |g.edges| ensures NodeLinked(r, v) { PruneKeepsNode(g, gone, v); }
    forall v: nat | v < |g.edges| ensures ForwardNode(r, v) { assert ForwardNode(g, v); }
  }

  // ---------------------------------------------------------------- what data of a node reaches

  /** `w` is `u`, or a chain of Collapse nodes leads from `u` to `w`. */
  ghost predicate Under(g: Graph, w: nat, u: nat)
    requires Linked(g) && w < |g.edges|
  {
    assert ForwardNode(g, w);
    w == u || (g.forward[w] && Under(g, g.edges[w][0], u))
  }

  ghost function Reach(g: Graph, u: nat): set<nat>
    requires Linked(g)
  {
    set w: nat | w < |g.edges| && Under(g, w, u)
  }

  lemma {:induction false} UnderIsSource(g: Graph, w: nat, u: nat)
    requires Linked(g) && w < |g.edges| && u < |g.edges| && !g.forward[u]
    ensures Under(g, w, u) <==> Source(g, w) == u
  {
    assert ForwardNode(g, w);
    if w != u && g.forward[w] { UnderIsSource(g, g.edges[w][0], u); }
  }

  lemma {:induction false} UnderBounds(g: Graph, w: nat, u: nat)
    requires Linked(g) && w < |g.edges| && Under(g, w, u)
    ensures u <= w
  {
    assert ForwardNode(g, w);
    if w != u { UnderBounds(g, g.edges[w][0], u); }
  }

  lemma ForwardChild(g: Graph, v: nat)
    requires Linked(g) && v < |g.edges| && g.forward[v]
    ensures |g.edges[v]| == 1 && g.edges[v][0] < v && Child(v, 0) in g.children[g.edges[v][0]]
  {
    assert ForwardNode(g, v) && NodeLinked(g, v);
    assert Pending(g, v, 0);
  }

  /** The first Collapse node on the chain from `u` to `w`. */
  lemma {:induction false} FirstOnChain(g: Graph, w: nat, u: nat) returns (v: nat)
    requires Linked(g) && w < |g.edges| && Under(g, w, u) && w != u
    ensures u < v < |g.edges| && g.forward[v] && Child(v, 0) in g.children[u] && Under(g, w, v)
  {
    ForwardChild(g, w);
    UnderBounds(g, g.edges[w][0], u);
    if g.edges[w][0] == u {
      v := w;
    } else {
      v := FirstOnChain(g, g.edges[w][0], u);
    }
  }

  lemma {:induction false} ChainExtends(g: Graph, w: nat, v: nat)
    requires Linked(g) && w < |g.edges| && v < |g.edges| && g.forward[v] && |g.edges[v]| == 1 && Under(g, w, v)
    ensures Under(g, w, g.edges[v][0])
  {
    assert ForwardNode(g, w);
    if w != v { ChainExtends(g, g.edges[w][0], v); }
  }

  /** Chains from two Collapse children of one node never meet. */
  lemma {:induction false} ChainsApart(g: Graph, w: nat, a: nat, b: nat)
    requires Linked(g) && w < |g.edges| && a < |g.edges| && b < |g.edges| && g.forward[a] && g.forward[b]
    requires |g.edges[a]| == 1 && |g.edges[b]| == 1 && g.edges[a][0] == g.edges[b][0]
    requires Under(g, w, a) && Under(g, w, b)
    ensures a == b
  {
    assert ForwardNode(g, w);
    assert g.edges[a][0] < a && g.edges[b][0] < b;
    if w == a && w != b {
      UnderBounds(g, g.edges[w][0], b);
    } else if w == b && w != a {
      UnderBounds(g, g.edges[w][0], a);
    } else if w != a {
      ChainsApart(g, g.edges[w][0], a, b);
    }
  }

  /** Edges, Collapse nodes and links are all that chains depend on. */
  lemma {:induction false} SameChains(g: Graph, r: Graph, w: nat)
    requires Linked(g) && Linked(r) && g.edges == r.edges && g.forward == r.forward && w < |g.edges|
    ensures Source(g, w) == Source(r, w)
    ensures forall u: nat :: Under(g, w, u) <==> Under(r, w, u)
  {
    assert ForwardNode(g, w);
    if g.forward[w] { SameChains(g, r, g.edges[w][0]); }
  }

  // ---------------------------------------------------------------- deliveries

  /** `e` delivers along an edge that is pending behind `u` or a Collapse node under it. */
  ghost predicate Delivery(g: Graph, u: nat, e: Event)
    requires Linked(g)
  {
    && e.Deliver? && e.node < |g.edges| && !g.forward[e.node] && e.index < |g.edges[e.node]|
    && Pending(g, e.node, e.index) && Under(g, g.edges[e.node][e.index], u)
  }

  ghost predicate FromChild(g: Graph, ch: Child, e: Event)
    requires Linked(g) && ch.node < |g.edges|
  {
    if g.forward[ch.node] then Delivery(g, ch.node, e) else e == Deliver(ch.node, ch.index)
  }

  /** A node delivers what its children take: itself, or through a Collapse node. */
  lemma DeliveryThroughChild(g: Graph, u: nat, e: Event)
    requires Linked(g) && u < |g.edges| && Delivery(g, u, e)
    ensures exists ch | ch in g.children[u] :: ch.node < |g.edges| && FromChild(g, ch, e)
  {
    var w := g.edges[e.node][e.index];
    if w == u {
      assert FromChild(g, Child(e.node, e.index), e);
    } else {
      var v := FirstOnChain(g, w, u);
      assert FromChild(g, Child(v, 0), e);
    }
  }

  lemma ChildDelivers(g: Graph, u: nat, ch: Child, e: Event)
    requires Linked(g) && u < |g.edges| && ch in g.children[u] && ch.node < |g.edges| && FromChild(g, ch, e)
    ensures Delivery(g, u, e)
  {
    assert NodeLinked(g, u) && ForwardNode(g, ch.node);
    assert IsEdge(g, u, ch);
    if g.forward[ch.node] { ChainExtends(g, g.edges[e.node][e.index], ch.node); }
  }

  /** Different children take different deliveries. */
  lemma ChildrenApart(g: Graph, u: nat, a: Child, b: Child, e: Event)
    requires Linked(g) && u < |g.edges| && a in g.children[u] && b in g.children[u] && a.node < |g.edges|
          && b.node < |g.edges|
    requires FromChild(g, a, e) && FromChild(g, b, e)
    ensures a == b
  {
    assert NodeLinked(g, u) && ForwardNode(g, a.node) && ForwardNode(g, b.node);
    assert IsEdge(g, u, a) && IsEdge(g, u, b);
    if g.forward[a.node] && g.forward[b.node] {
      ChainsApart(g, g.edges[e.node][e.index], a.node, b.node);
    } else if g.forward[a.node] {
      UnderBounds(g, g.edges[e.node][e.index], a.node);
    } else if g.forward[b.node] {
      UnderBounds(g, g.edges[e.node][e.index], b.node);
    }
  }

  // ---------------------------------------------------------------- a push keeps the history

  ghost predicate Delivers(g: Graph, u: nat, d: seq<Event>)
    requires Linked(g)
  {
    Distinct(d) && forall e :: e in d <==> Delivery(g, u, e)
  }

  /** The graph after node `u` has pushed the deliveries `d` and removed its children. */
  ghost function Pushed(g: Graph, u: nat, d: seq<Event>): Graph
    requires Linked(g)
  {
    Prune(g, Reach(g, u)).(log := g.log + d)
  }

  lemma LogDoesNotLink(g: Graph, log: seq<Event>)
    requires Linked(g)
    ensures Linked(g.(log := log))
  {
    var r := g.(log := log);
    assert EdgesAscend(r);
    forall v: nat | v < |g.edges| ensures NodeLinked(r, v) {
      assert NodeLinked(g, v);
      forall i: nat | i < |g.edges[v]| ensures Pending(r, v, i) <==> Pending(g, v, i) { }
      forall ch | ch in r.children[v] ensures IsEdge(r, v, ch) { assert IsEdge(g, v, ch); }
    }
    forall v: nat | v < |g.edges| ensures ForwardNode(r, v) { assert ForwardNode(g, v); }
  }

  lemma PushedIsLinked(g: Graph, u: nat, d: seq<Event>)
    requires Linked(g)
    ensures Linked(Pushed(g, u, d))
  {
    PruneKeepsLinks(g, Reach(g, u));
    LogDoesNotLink(Prune(g, Reach(g, u)), g.log + d);
  }

  lemma PushedEdge(g: Graph, u: nat, d: seq<Event>, v: nat, i: nat)
    requires Linked(g) && Linked(Pushed(g, u, d)) && v < |g.edges| && i < |g.edges[v]|
    ensures Pending(Pushed(g, u, d), v, i) <==> Pending(g, v, i) && (g.forward[v] || !Under(g, g.edges[v][i], u))
  {
    PrunedEdge(g, Reach(g, u), v, i);
  }

  lemma PushedNode(g: Graph, u: nat, d: seq<Event>, v: nat)
    requires ValidGraph(g) && Delivers(g, u, d) && v < |g.edges| && Linked(Pushed(g, u, d))
    ensures HistoryOfNode(Pushed(g, u, d), v)
  {
    var r := Pushed(g, u, d);
    assert HistoryOfNode(g, v);
    forall i: nat | i < |g.edges[v]| ensures Deliver(v, i) in r.log <==> !Pending(r, v, i) {
      PushedEdge(g, u, d, v, i);
      assert Deliver(v, i) in g.log <==> !Pending(g, v, i);
      assert Deliver(v, i) in d <==> Delivery(g, u, Deliver(v, i));
    }
    assert !Delivery(g, u, Execute(v));
    assert Execute(v) in r.log <==> Execute(v) in g.log;
  }

  lemma EarlierInTime(g: Graph, r: Graph, k: nat)
    requires Linked(g) && Linked(r) && g.edges == r.edges && g.forward == r.forward && k < |g.log| <= |r.log|
    requires r.log[..|g.log|] == g.log && InTime(g, k)
    ensures InTime(r, k)
  {
    assert r.log[k] == g.log[k] && r.log[..k] == g.log[..k];
    if g.log[k].Deliver? { SameChains(g, r, g.edges[g.log[k].node][g.log[k].index]); }
  }

  lemma PushedInTime(g: Graph, u: nat, d: seq<Event>, k: nat)
    requires ValidGraph(g) && Delivers(g, u, d) && Linked(Pushed(g, u, d))
    requires u < |g.edges| && !g.forward[u] && g.state[u] == Executed && k < |Pushed(g, u, d).log|
    ensures InTime(Pushed(g, u, d), k)
  {
    var r := Pushed(g, u, d);
    if k < |g.log| {
      assert r.log[..|g.log|] == g.log;
      EarlierInTime(g, r, k);
    } else {
      var e := r.log[k];
      assert e == d[k - |g.log|] && e in d;
      assert Delivery(g, u, e);
      UnderIsSource(g, g.edges[e.node][e.index], u);
      SameChains(g, r, g.edges[e.node][e.index]);
      assert HistoryOfNode(g, u);
      assert r.log[..k] == g.log + d[..k - |g.log|];
    }
  }

  lemma DistinctAppend<T>(a: seq<T>, b: seq<T>)
    requires Distinct(a) && Distinct(b) && forall x | x in a :: x !in b
    ensures Distinct(a + b)
  {
    forall x, y | 0 <= x < y < |a + b| ensures (a + b)[x] != (a + b)[y] {
      if x < |a| <= y { assert a[x] in a && b[y - |a|] in b; }
    }
  }

  lemma NotYetDelivered(g: Graph, u: nat, e: Event)
    requires ValidGraph(g) && Delivery(g, u, e)
    ensures e !in g.log
  {
    assert HistoryOfNode(g, e.node);
  }

  /** Pushing from an executed node and removing its children keeps the graph valid. */
  lemma PushKeepsValid(g: Graph, u: nat, d: seq<Event>)
    requires ValidGraph(g) && Delivers(g, u, d) && u < |g.edges| && !g.forward[u] && g.state[u] == Executed
    ensures ValidGraph(Pushed(g, u, d))
  {
    var r := Pushed(g, u, d);
    PushedIsLinked(g, u, d);
    forall e | e in d ensures e !in g.log { NotYetDelivered(g, u, e); }
    DistinctAppend(g.log, d);
    forall k: nat | k < |r.log| ensures InTime(r, k) { PushedInTime(g, u, d, k); }
    forall v: nat | v < |g.edges| ensures HistoryOfNode(r, v) { PushedNode(g, u, d, v); }
  }

  // ---------------------------------------------------------------- an execution keeps the history

  ghost function Ran(g: Graph, v: nat): Graph
    requires Sized(g) && v < |g.edges|
  {
    g.(state := g.state[v := Executed], log := g.log + [Execute(v)])
  }

  lemma RanIsLinked(g: Graph, v: nat)
    requires Linked(g) && v < |g.edges| && !g.forward[v]
    ensures Linked(Ran(g, v))
  {
    var r := Ran(g, v);
    assert EdgesAscend(r);
    forall w: nat | w < |g.edges| ensures NodeLinked(r, w) {
      assert NodeLinked(g, w);
      forall i: nat | i < |g.edges[w]| ensures Pending(r, w, i) <==> Pending(g, w, i) { }
      forall ch | ch in r.children[w] ensures IsEdge(r, w, ch) { assert IsEdge(g, w, ch); }
    }
    forall w: nat | w < |g.edges| ensures ForwardNode(r, w) { assert ForwardNode(g, w); }
  }

  lemma RanNode(g: Graph, v: nat, w: nat)
    requires ValidGraph(g) && v < |g.edges| && !g.forward[v] && g.parents[v] == [] && w < |g.edges| && Linked(Ran(g, v))
    ensures HistoryOfNode(Ran(g, v), w)
  {
    var r := Ran(g, v);
    assert HistoryOfNode(g, w);
    forall i: nat | i < |g.edges[w]| ensures Deliver(w, i) in r.log <==> !Pending(r, w, i) {
      assert Deliver(w, i) in g.log <==> !Pending(g, w, i);
      assert Pending(r, w, i) <==> Pending(g, w, i);
    }
  }

  /** Executing a node without parents keeps the graph valid. */
  lemma RunKeepsValid(g: Graph, v: nat)
    requires ValidGraph(g) && v < |g.edges| && !g.forward[v] && g.state[v] == New && g.parents[v] == []
    ensures ValidGraph(Ran(g, v))
  {
    var r := Ran(g, v);
    RanIsLinked(g, v);
    assert HistoryOfNode(g, v) && NodeLinked(g, v);
    DistinctAppend(g.log, [Execute(v)]);
    forall k: nat | k < |r.log| ensures InTime(r, k) {
      if k < |g.log| {
        assert r.log[..|g.log|] == g.log;
        EarlierInTime(g, r, k);
      } else {
        assert r.log[..k] == g.log;
        forall i: nat | i < |g.edges[v]| ensures Deliver(v, i) in g.log { assert !Pending(g, v, i); }
      }
    }
    forall w: nat | w < |g.edges| ensures HistoryOfNode(r, w) { RanNode(g, v, w); }
  }

  // ---------------------------------------------------------------- a new node keeps the history

  /** The entries a new node `v` adds to the children of `u`, for its first `k` parents. */
  ghost function Entries(v: nat, inputs: seq<nat>, u: nat, k: nat): (r: seq<Child>)
    requires k <= |inputs|
    ensures forall ch | ch in r :: ch.node == v && ch.index < k && inputs[ch.index] == u
    ensures forall i: nat | i < k && inputs[i] == u :: Child(v, i) in r
  {
    if k == 0 then [] else
      Entries(v, inputs, u, k - 1) + (if inputs[k - 1] == u then [Child(v, k - 1)] else [])
  }

  lemma {:induction false} EntriesDistinct(v: nat, inputs: seq<nat>, u: nat, k: nat)
    requires k <= |inputs|
    ensures Distinct(Entries(v, inputs, u, k))
  {
    if k > 0 {
      EntriesDistinct(v, inputs, u, k - 1);
      if inputs[k - 1] == u { DistinctAppend(Entries(v, inputs, u, k - 1), [Child(v, k - 1)]); }
    }
  }

  /** The children after a new node has registered with its first `k` parents. */
  ghost function Registered(g: Graph, inputs: seq<nat>, k: nat): (r: seq<seq<Child>>)
    requires Sized(g) && k <= |inputs|
    ensures |r| == |g.edges|
  {
    seq(|g.edges|, u requires 0 <= u < |g.edges| => g.children[u] + Entries(|g.edges|, inputs, u, k))
  }

  lemma RegisterNext(g: Graph, inputs: seq<nat>, k: nat)
    requires Sized(g) && k < |inputs| && forall u | u in inputs :: u < |g.edges|
    ensures inputs[k] in inputs
    ensures var a := Registered(g, inputs, k);
            Registered(g, inputs, k + 1) == a[inputs[k] := a[inputs[k]] + [Child(|g.edges|, k)]]
  {
    var n, a, b := |g.edges|, Registered(g, inputs, k), Registered(g, inputs, k + 1);
    assert inputs[k] in inputs;
    forall u: nat | u < n ensures b[u] == if u == inputs[k] then a[u] + [Child(n, k)] else a[u] {
      assert Entries(n, inputs, u, k + 1) == Entries(n, inputs, u, k) + (if inputs[k] == u then [Child(n, k)] else []);
    }
    assert b == a[inputs[k] := a[inputs[k]] + [Child(n, k)]];
  }

  lemma RegisterNone(g: Graph, inputs: seq<nat>)
    requires Sized(g)
    ensures Registered(g, inputs, 0) == g.children
  {
    forall u: nat | u < |g.edges| ensures Registered(g, inputs, 0)[u] == g.children[u] {
      assert Entries(|g.edges|, inputs, u, 0) == [];
    }
  }

  /** The graph with a new node whose parents are `inputs`. */
  ghost function Added(g: Graph, collapse: bool, inputs: seq<nat>): (r: Graph)
    requires Sized(g)
    ensures Sized(r)
  {
    var n := |g.edges|;
    Graph(g.forward + [collapse], g.state + [New], g.parents + [inputs],
          Registered(g, inputs, |inputs|) + [[]],
          g.edges + [inputs], g.log)
  }

  /** The places ascend. */
  ghost predicate PlacesAscend(e: seq<Child>) { forall x: nat, y: nat | x < y < |e| :: e[x].index < e[y].index }

  /** The list of children of `u` has gained exactly the entries of the new node's places whose parent is `u`, each
      once, in the order of the places. */
  ghost predicate RegisteredOnce(before: seq<Child>, after: seq<Child>, id: nat, inputs: seq<nat>, u: nat) {
    && |before| <= |after| && after[..|before|] == before
    && (forall x: nat | |before| <= x < |after| ::
          after[x].node == id && after[x].index < |inputs| && inputs[after[x].index] == u)
    && PlacesAscend(after[|before|..])
    && forall i: nat | i < |inputs| && inputs[i] == u :: Child(id, i) in after[|before|..]
  }

  lemma {:induction false} EntriesAscend(v: nat, inputs: seq<nat>, u: nat, k: nat)
    requires k <= |inputs|
    ensures PlacesAscend(Entries(v, inputs, u, k))
  {
    if k > 0 {
      EntriesAscend(v, inputs, u, k - 1);
      AppendPlace(Entries(v, inputs, u, k - 1), Child(v, k - 1));
    }
  }

  lemma AppendPlace(e: seq<Child>, ch: Child)
    requires PlacesAscend(e) && forall x | x in e :: x.index < ch.index
    ensures PlacesAscend(e + [ch])
  {
    forall x: nat, y: nat | x < y < |e + [ch]| ensures (e + [ch])[x].index < (e + [ch])[y].index {
      assert e[x] in e;
    }
  }

  lemma EntriesRegister(before: seq<Child>, id: nat, inputs: seq<nat>, u: nat)
    ensures RegisteredOnce(before, before + Entries(id, inputs, u, |inputs|), id, inputs, u)
  {
    var e := Entries(id, inputs, u, |inputs|);
    EntriesAscend(id, inputs, u, |inputs|);
    assert (before + e)[..|before|] == before && (before + e)[|before|..] == e;
  }

  /** A new node registers with each of its parents, once for every place. */
  lemma RegisteredWithAll(g: Graph, collapse: bool, inputs: seq<nat>)
    requires Sized(g) && forall u | u in inputs :: u < |g.edges|
    ensures var r, id := Added(g, collapse, inputs), |g.edges|;
            && (forall i: nat | i < |inputs| :: inputs[i] < id && Child(id, i) in r.children[inputs[i]])
            && forall u: nat | u < id :: RegisteredOnce(g.children[u], r.children[u], id, inputs, u)
  {
    var r, id := Added(g, collapse, inputs), |g.edges|;
    forall u: nat | u < id ensures RegisteredOnce(g.children[u], r.children[u], id, inputs, u) {
      EntriesRegister(g.children[u], id, inputs, u);
    }
    forall i: nat | i < |inputs| ensures inputs[i] < id && Child(id, i) in r.children[inputs[i]] {
      assert inputs[i] in inputs;
      assert Child(id, i) in Entries(id, inputs, inputs[i], |inputs|);
    }
  }

  lemma AddedEdge(g: Graph, collapse: bool, inputs: seq<nat>, v: nat, i: nat)
    requires Linked(g) && (forall u | u in inputs :: u < |g.edges|) && EdgesAscend(Added(g, collapse, inputs))
    requires v <= |g.edges| && i < |Added(g, collapse, inputs).edges[v]|
    ensures Pending(Added(g, collapse, inputs), v, i) <==> v == |g.edges| || Pending(g, v, i)
  {
    var n, u := |g.edges|, Added(g, collapse, inputs).edges[v][i];
    if v == n {
      assert u == inputs[i] && inputs[i] in inputs;
      assert Child(n, i) in Entries(n, inputs, u, |inputs|);
    }
  }

  lemma AddedOldNode(g: Graph, collapse: bool, inputs: seq<nat>, v: nat)
    requires Linked(g) && (forall u | u in inputs :: u < |g.edges|) && EdgesAscend(Added(g, collapse, inputs))
    requires v < |g.edges|
    ensures NodeLinked(Added(g, collapse, inputs), v)
  {
    var r, e := Added(g, collapse, inputs), Entries(|g.edges|, inputs, v, |inputs|);
    assert NodeLinked(g, v);
    EntriesDistinct(|g.edges|, inputs, v, |inputs|);
    forall ch | ch in g.children[v] ensures ch !in e && IsEdge(r, v, ch) { assert IsEdge(g, v, ch); }
    DistinctAppend(g.children[v], e);
    assert r.children[v] == g.children[v] + e;
    forall i: nat | i < |g.edges[v]| ensures Pending(r, v, i) <==> g.edges[v][i] in r.parents[v] {
      AddedEdge(g, collapse, inputs, v, i);
    }
  }

  lemma AddedNewNode(g: Graph, collapse: bool, inputs: seq<nat>)
    requires Linked(g) && (forall u | u in inputs :: u < |g.edges|) && EdgesAscend(Added(g, collapse, inputs))
    ensures NodeLinked(Added(g, collapse, inputs), |g.edges|)
  {
    var r, n := Added(g, collapse, inputs), |g.edges|;
    forall i: nat | i < |inputs| ensures Pending(r, n, i) { AddedEdge(g, collapse, inputs, n, i); }
  }

  lemma AddedAscends(g: Graph, collapse: bool, inputs: seq<nat>)
    requires Linked(g) && (forall u | u in inputs :: u < |g.edges|)
    ensures EdgesAscend(Added(g, collapse, inputs))
  {
    var r, n := Added(g, collapse, inputs), |g.edges|;
    forall c: nat, i: nat | c < |r.edges| && i < |r.edges[c]| ensures r.edges[c][i] < c {
      if c == n { assert inputs[i] in inputs; } else { assert g.edges[c][i] < c; }
    }
  }

  lemma AddedNode(g: Graph, collapse: bool, inputs: seq<nat>, v: nat)
    requires Linked(g) && (forall u | u in inputs :: u < |g.edges|) && EdgesAscend(Added(g, collapse, inputs))
    requires (collapse ==> |inputs| == 1) && v <= |g.edges|
    ensures NodeLinked(Added(g, collapse, inputs), v) && ForwardNode(Added(g, collapse, inputs), v)
  {
    if v < |g.edges| {
      assert ForwardNode(g, v);
      AddedOldNode(g, collapse, inputs, v);
    } else {
      AddedNewNode(g, collapse, inputs);
    }
  }

  lemma AddedIsLinked(g: Graph, collapse: bool, inputs: seq<nat>)
    requires Linked(g) && (forall u | u in inputs :: u < |g.edges|) && (collapse ==> |inputs| == 1)
    ensures Linked(Added(g, collapse, inputs))
  {
    var r := Added(g, collapse, inputs);
    AddedAscends(g, collapse, inputs);
    forall v: nat | v < |r.edges| ensures NodeLinked(r, v) && ForwardNode(r, v) { AddedNode(g, collapse, inputs, v); }
  }

  lemma {:induction false} AddedSource(g: Graph, r: Graph, w: nat)
    requires Linked(g) && Linked(r) && |g.edges| <= |r.edges| && w < |g.edges|
    requires r.edges[..|g.edges|] == g.edges && r.forward[..|g.edges|] == g.forward
    ensures Source(g, w) == Source(r, w)
  {
    assert ForwardNode(g, w);
    assert r.edges[w] == r.edges[..|g.edges|][w] && r.forward[w] == r.forward[..|g.edges|][w];
    if g.forward[w] { AddedSource(g, r, g.edges[w][0]); }
  }

  lemma AddedInTime(g: Graph, collapse: bool, inputs: seq<nat>, k: nat)
    requires ValidGraph(g) && Linked(Added(g, collapse, inputs)) && k < |g.log|
    ensures InTime(Added(g, collapse, inputs), k)
  {
    var r := Added(g, collapse, inputs);
    assert InTime(g, k);
    match g.log[k]
    case Execute(v) => assert r.edges[v] == g.edges[v];
    case Deliver(v, i) =>
      assert r.edges[v] == g.edges[v] && g.edges[v][i] < v;
      assert r.edges[..|g.edges|] == g.edges && r.forward[..|g.edges|] == g.forward;
      AddedSource(g, r, g.edges[v][i]);
  }

  /** Creating a node keeps the graph valid. */
  lemma AddKeepsValid(g: Graph, collapse: bool, inputs: seq<nat>)
    requires ValidGraph(g) && (forall u | u in inputs :: u < |g.edges|) && (collapse ==> |inputs| == 1)
    ensures ValidGraph(Added(g, collapse, inputs))
  {
    var r, n := Added(g, collapse, inputs), |g.edges|;
    AddedIsLinked(g, collapse, inputs);
    forall k: nat | k < |r.log| ensures InTime(r, k) { AddedInTime(g, collapse, inputs, k); }
    forall v: nat | v < |r.edges| ensures HistoryOfNode(r, v) { AddedHistory(g, collapse, inputs, v); }
  }

  lemma AddedHistory(g: Graph, collapse: bool, inputs: seq<nat>, v: nat)
    requires ValidGraph(g) && (forall u | u in inputs :: u < |g.edges|) && Linked(Added(g, collapse, inputs))
    requires v <= |g.edges|
    ensures HistoryOfNode(Added(g, collapse, inputs), v)
  {
    var r, n := Added(g, collapse, inputs), |g.edges|;
    if v < n {
      assert HistoryOfNode(g, v);
      forall i: nat | i < |r.edges[v]|
        ensures Deliver(v, i) in r.log <==> !Pending(r, v, i) {
        AddedEdge(g, collapse, inputs, v, i);
      }
    } else {
      forall e | e in g.log ensures e.node < n {
        var k :| 0 <= k < |g.log| && g.log[k] == e;
        assert InTime(g, k);
      }
      forall i: nat | i < |r.edges[v]|
        ensures Deliver(v, i) in r.log <==> !Pending(r, v, i) {
        AddedEdge(g, collapse, inputs, v, i);
      }
    }
  }
}
