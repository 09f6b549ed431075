/**
 Which stages an action needs, in what order they run, and why every stage is ready when its turn comes
 (thrill/api/dia_base.cpp:302-443).
 */
module StageOrder {
  import opened Lists
  import opened StageGraph

  // ---------------------------------------------------------------- the stages an action needs

  /** `v` is `a` or is reached from it over remaining parents. */
  ghost predicate Needed(g: Graph, a: nat, v: nat)
    requires Linked(g) && a < |g.edges|
    decreases a
  {
    assert NodeLinked(g, a);
    v == a || exists u | u in g.parents[a] :: u < a && Needed(g, u, v)
  }

  lemma {:induction false} NeededParent(g: Graph, a: nat, v: nat, u: nat)
    requires Linked(g) && a < |g.edges| && v < |g.edges| && Needed(g, a, v) && u in g.parents[v]
    ensures u < v && Needed(g, a, u)
    decreases a
  {
    assert NodeLinked(g, v) && NodeLinked(g, a);
    if v == a {
      assert Needed(g, u, u);
    } else {
      var x :| x in g.parents[a] && x < a && Needed(g, x, v);
      NeededParent(g, x, v, u);
    }
  }

  lemma {:induction false} NeededBound(g: Graph, a: nat, v: nat)
    requires Linked(g) && a < |g.edges| && Needed(g, a, v)
    ensures v <= a
    decreases a
  {
    if v != a {
      var x :| x in g.parents[a] && x < a && Needed(g, x, v);
      NeededBound(g, x, v);
    }
  }

  /** Every needed stage but the action has a needed stage among its children. */
  lemma {:induction false} NeededHasChild(g: Graph, a: nat, v: nat) returns (ch: Child)
    requires Linked(g) && a < |g.edges| && v < |g.edges| && Needed(g, a, v) && v != a
    ensures ch in g.children[v] && Needed(g, a, ch.node)
    decreases a
  {
    assert NodeLinked(g, a);
    var x :| x in g.parents[a] && x < a && Needed(g, x, v);
    if x == v {
      var i :| 0 <= i < |g.edges[a]| && g.edges[a][i] == v;
      assert Pending(g, a, i);
      ch := Child(a, i);
    } else {
      ch := NeededHasChild(g, x, v);
    }
  }

  /** A set that holds the action and the parents of its members holds all needed stages. */
  lemma {:induction false} ClosedHoldsNeeded(g: Graph, a: nat, s: set<nat>, v: nat)
    requires Linked(g) && a < |g.edges| && a in s && Needed(g, a, v)
    requires forall x | x in s :: x < |g.edges| && forall u | u in g.parents[x] :: u in s
    ensures v in s
    decreases a
  {
    if v != a {
      var x :| x in g.parents[a] && x < a && Needed(g, x, v);
      ClosedHoldsNeeded(g, x, s, v);
    }
  }

  /** Pending edges are the parents left. */
  lemma ChildHasParent(g: Graph, u: nat, ch: Child)
    requires Linked(g) && u < |g.edges| && ch in g.children[u]
    ensures ch.node < |g.edges| && u < ch.node && u in g.parents[ch.node]
  {
    assert NodeLinked(g, u);
    assert IsEdge(g, u, ch);
    assert NodeLinked(g, ch.node);
    assert Pending(g, ch.node, ch.index);
  }

  lemma ParentHasChild(g: Graph, v: nat, u: nat) returns (ch: Child)
    requires Linked(g) && v < |g.edges| && u in g.parents[v]
    ensures u < v && ch in g.children[u] && ch.node == v
  {
    assert NodeLinked(g, v);
    var i :| 0 <= i < |g.edges[v]| && g.edges[v][i] == u;
    assert Pending(g, v, i);
    ch := Child(v, i);
  }

  // ---------------------------------------------------------------- topological order

  /** Every stage of the list comes after its children in the set. */
  ghost predicate ChildrenFirst(g: Graph, stages: set<nat>, order: seq<nat>)
    requires Sized(g)
  {
    && Distinct(order)
    && (forall k | 0 <= k < |order| :: order[k] in stages && order[k] < |g.edges|)
    && forall k: nat | k < |order| :: ChildrenBefore(g, stages, order, k)
  }

  ghost predicate ChildrenBefore(g: Graph, stages: set<nat>, order: seq<nat>, k: nat)
    requires Sized(g) && k < |order| && order[k] < |g.edges|
  {
    forall ch | ch in g.children[order[k]] && ch.node in stages :: ch.node in order[..k]
  }

  lemma AppendStage(g: Graph, stages: set<nat>, order: seq<nat>, s: nat)
    requires Sized(g) && ChildrenFirst(g, stages, order) && s in stages && s < |g.edges| && s !in order
    requires forall ch | ch in g.children[s] && ch.node in stages :: ch.node in order
    ensures ChildrenFirst(g, stages, order + [s])
  {
    var r := order + [s];
    forall k: nat | k < |r| ensures ChildrenBefore(g, stages, r, k) {
      if k < |order| {
        assert r[..k] == order[..k] && r[k] == order[k];
        assert ChildrenBefore(g, stages, order, k);
      } else {
        assert r[..k] == order;
      }
    }
  }

  /** `order` lists the stages `a` needs, children first. */
  ghost predicate Order(g: Graph, a: nat, order: seq<nat>)
    requires Linked(g) && a < |g.edges|
  {
    && (forall v: nat :: v in order <==> Needed(g, a, v))
    && Distinct(order)
    && (forall k | 0 <= k < |order| :: order[k] <= a)
    && forall v: nat, u: nat | v in order && v < |g.edges| && u in g.parents[v] :: Before(order, v, u)
  }

  /** `v` comes before `u`. */
  ghost predicate Before(order: seq<nat>, v: nat, u: nat) {
    exists j, k | 0 <= j < k < |order| :: order[j] == v && order[k] == u
  }

  lemma ChildrenFirstIsOrder(g: Graph, a: nat, stages: set<nat>, order: seq<nat>)
    requires Linked(g) && a < |g.edges| && ChildrenFirst(g, stages, order)
    requires (forall v: nat :: v in stages <==> Needed(g, a, v)) && forall v | v in stages :: v in order
    ensures Order(g, a, order)
  {
    forall k | 0 <= k < |order| ensures order[k] <= a { NeededBound(g, a, order[k]); }
    forall v: nat, u: nat | v in order && v < |g.edges| && u in g.parents[v] ensures Before(order, v, u) {
      NeededParent(g, a, v, u);
      var ch := ParentHasChild(g, v, u);
      assert u in stages;
      var k :| 0 <= k < |order| && order[k] == u;
      assert ChildrenBefore(g, stages, order, k);
      var j :| 0 <= j < k && order[..k][j] == v;
    }
  }

  /** The action is the front of the order. */
  lemma FrontIsAction(g: Graph, a: nat, stages: set<nat>, order: seq<nat>)
    requires Linked(g) && a < |g.edges| && ChildrenFirst(g, stages, order)
    requires (forall v: nat :: v in stages <==> Needed(g, a, v)) && forall v | v in stages :: v in order
    ensures |order| > 0 && order[0] == a
  {
    assert Needed(g, a, a);
    assert a in order;
    assert ChildrenBefore(g, stages, order, 0);
    if order[0] != a { var ch := NeededHasChild(g, a, order[0]); }
  }

  // ---------------------------------------------------------------- running the stages

  /** `g` comes from `g0` by executing nodes and removing children. */
  ghost predicate Shrunk(g0: Graph, g: Graph)
    requires Linked(g0) && Linked(g)
  {
    && g.edges == g0.edges && g.forward == g0.forward && |g.log| >= |g0.log| && g.log[..|g0.log|] == g0.log
    && (forall v: nat, u: nat | v < |g.edges| && u in g.parents[v] :: u in g0.parents[v])
  }

  /** Nothing but Collapse nodes is left to push to behind `p`. */
  ghost predicate Drained(g: Graph, p: nat)
    requires Linked(g) && p < |g.edges|
  {
    forall v: nat, u: nat | v < |g.edges| && u in g.parents[v] && u < |g.edges| && Source(g, u) == p :: g.forward[v]
  }

  // ---------------------------------------------------------------- which edges deliver

  /** Place `i` among the inputs of executable node `v`. */
  ghost predicate IsPlace(g: Graph, v: nat, i: nat) {
    Sized(g) && v < |g.edges| && !g.forward[v] && i < |g.edges[v]|
  }

  /** The node whose data the edge delivers. */
  ghost function Supplier(g: Graph, v: nat, i: nat): (p: nat)
    requires Linked(g) && IsPlace(g, v, i)
    ensures p < v
  {
    Source(g, g.edges[v][i])
  }

  /** From `g` to `r`, the edge delivers exactly if `pushing`, unless it had delivered before. */
  ghost predicate DeliversFrom(g: Graph, r: Graph, v: nat, i: nat, pushing: bool)
    requires Linked(g) && IsPlace(g, v, i)
  {
    Deliver(v, i) in r.log <==> Deliver(v, i) in g.log || pushing
  }

  lemma PushDelivers(g: Graph, s: nat, d: seq<Event>, v: nat, i: nat)
    requires ValidGraph(g) && s < |g.edges| && !g.forward[s] && Delivers(g, s, d) && IsPlace(g, v, i)
    ensures DeliversFrom(g, Pushed(g, s, d), v, i, Supplier(g, v, i) == s)
  {
    var e := Deliver(v, i);
    assert HistoryOfNode(g, v);
    assert e in g.log <==> !Pending(g, v, i);
    assert e in d <==> Delivery(g, s, e);
    UnderIsSource(g, g.edges[v][i], s);
  }

  /** The edges whose suppliers have run in the places from `k` on have delivered, and no others. */
  ghost predicate DeliversSoFar(g0: Graph, g: Graph, a: nat, order: seq<nat>, k: nat)
    requires Linked(g0) && k <= |order|
  {
    forall v: nat, i: nat | IsPlace(g0, v, i) ::
      DeliversFrom(g0, g, v, i, Supplier(g0, v, i) != a && Supplier(g0, v, i) in order[k..])
  }

  /** The stages from place `k` of the order on have run, and those before it have not. */
  ghost predicate Progress(g0: Graph, g: Graph, a: nat, order: seq<nat>, k: nat)
    requires Linked(g0) && a < |g0.edges|
  {
    && ValidGraph(g) && Shrunk(g0, g) && Order(g0, a, order) && k <= |order|
    && (forall v: nat | v < |g.edges| && (v in order[k..] ==> g.forward[v]) :: g.state[v] == g0.state[v])
    && (forall v: nat | v < |g.edges| && v in order[k..] && !g.forward[v] ::
          g.state[v] == Executed && (v != a ==> Drained(g, v)))
    && DeliversSoFar(g0, g, a, order, k)
  }

  /** The source of a needed node's parent is needed and comes later in the order. */
  lemma {:induction false} SourceIsLater(g0: Graph, a: nat, order: seq<nat>, v: nat, u: nat)
    requires Linked(g0) && a < |g0.edges| && Order(g0, a, order) && v in order && v < |g0.edges| && u in g0.parents[v]
    ensures u < v && Before(order, v, Source(g0, u)) && Source(g0, u) != a
    decreases u
  {
    NeededParent(g0, a, v, u);
    NeededBound(g0, a, v);
    assert Before(order, v, u);
    assert ForwardNode(g0, u);
    if g0.forward[u] {
      var u' := g0.edges[u][0];
      assert u in order && u' in g0.parents[u];
      SourceIsLater(g0, a, order, u, u');
      BeforeTransitive(order, v, u, Source(g0, u));
    }
  }

  lemma BeforeTransitive(order: seq<nat>, x: nat, y: nat, z: nat)
    requires Distinct(order) && Before(order, x, y) && Before(order, y, z)
    ensures Before(order, x, z)
  {
    var i, j :| 0 <= i < j < |order| && order[i] == x && order[j] == y;
    var j', k :| 0 <= j' < k < |order| && order[j'] == y && order[k] == z;
    assert j == j';
  }

  lemma ParentGone(g0: Graph, g: Graph, a: nat, order: seq<nat>, k: nat, s: nat, u: nat)
    requires Linked(g0) && a < |g0.edges| && Progress(g0, g, a, order, k) && 0 < k && s == order[k - 1]
    requires s < |g.edges| && !g.forward[s] && u in g0.parents[s]
    ensures u !in g.parents[s]
  {
    SourceIsLater(g0, a, order, s, u);
    var p := Source(g0, u);
    SameChains(g0, g, u);
    BeforeIsLater(order, k, s, p);
    assert Drained(g, p);
  }

  /** When its turn comes, a stage that can execute has received everything from its parents. */
  lemma ReadyToRun(g0: Graph, g: Graph, a: nat, order: seq<nat>, k: nat, s: nat)
    requires Linked(g0) && a < |g0.edges| && Progress(g0, g, a, order, k) && 0 < k && s == order[k - 1]
    requires s < |g.edges| && !g.forward[s]
    ensures g.parents[s] == []
  {
    assert |g.parents[s]| > 0 ==> g.parents[s][0] in g.parents[s];
    forall u | u in g0.parents[s] ensures u !in g.parents[s] { ParentGone(g0, g, a, order, k, s, u); }
  }

  lemma BeforeIsLater(order: seq<nat>, k: nat, s: nat, p: nat)
    requires Distinct(order) && 0 < k <= |order| && s == order[k - 1] && Before(order, s, p)
    ensures p in order[k..]
  {
    var i, j :| 0 <= i < j < |order| && order[i] == s && order[j] == p;
    assert i == k - 1;
    assert order[k..][j - k] == p;
  }

  lemma FromPlace(order: seq<nat>, k: nat, v: nat)
    requires 0 < k <= |order|
    ensures v in order[k - 1..] <==> v == order[k - 1] || v in order[k..]
  {
    assert order[k - 1..] == [order[k - 1]] + order[k..];
  }

  /** A stage that has only to push: nothing, or its data. */
  lemma SkipStage(g0: Graph, g: Graph, a: nat, order: seq<nat>, k: nat)
    requires Linked(g0) && a < |g0.edges| && Progress(g0, g, a, order, k) && 0 < k && order[k - 1] < |g.edges|
    requires g.forward[order[k - 1]]
    ensures Progress(g0, g, a, order, k - 1)
  {
    forall v: nat ensures v in order[k - 1..] <==> v == order[k - 1] || v in order[k..] { FromPlace(order, k, v); }
    SkipDelivers(g0, g, a, order, k, k - 1);
  }

  lemma SkipDelivers(g0: Graph, g: Graph, a: nat, order: seq<nat>, k: nat, k': nat)
    requires Linked(g0) && 0 < k <= |order| && k' == k - 1 && DeliversSoFar(g0, g, a, order, k)
    requires order[k'] < |g0.edges| && g0.forward[order[k']]
    ensures DeliversSoFar(g0, g, a, order, k')
  {
    forall v: nat, i: nat | IsPlace(g0, v, i)
      ensures DeliversFrom(g0, g, v, i, Supplier(g0, v, i) != a && Supplier(g0, v, i) in order[k'..]) {
      assert DeliversFrom(g0, g, v, i, Supplier(g0, v, i) != a && Supplier(g0, v, i) in order[k..]);
      FromPlace(order, k, Supplier(g0, v, i));
    }
  }

  lemma DrainedStays(g: Graph, r: Graph, p: nat)
    requires Linked(g) && Linked(r) && Shrunk(g, r) && p < |g.edges| && Drained(g, p)
    ensures Drained(r, p)
  {
    forall v: nat, u: nat | v < |r.edges| && u in r.parents[v] && u < |r.edges| && Source(r, u) == p
      ensures r.forward[v] {
      SameChains(g, r, u);
      assert u in g.parents[v];
    }
  }

  lemma ShrunkTransitive(a: Graph, b: Graph, c: Graph)
    requires Linked(a) && Linked(b) && Linked(c) && Shrunk(a, b) && Shrunk(b, c)
    ensures Shrunk(a, c)
  {
    assert c.log[..|a.log|] == c.log[..|b.log|][..|a.log|];
  }

  lemma PushShrinks(g: Graph, s: nat, d: seq<Event>)
    requires Linked(g) && s < |g.edges| && Linked(Pushed(g, s, d))
    ensures Shrunk(g, Pushed(g, s, d)) && Pushed(g, s, d).state == g.state
  {
    var r := Pushed(g, s, d);
    forall v: nat, u: nat | v < |g.edges| && u in r.parents[v] ensures u in g.parents[v] { }
  }

  /** After its push a node is drained. */
  lemma PushDrains(g: Graph, s: nat, d: seq<Event>)
    requires Linked(g) && s < |g.edges| && !g.forward[s] && Linked(Pushed(g, s, d))
    ensures Drained(Pushed(g, s, d), s)
  {
    var r := Pushed(g, s, d);
    forall v: nat, u: nat | v < |r.edges| && u in r.parents[v] && u < |r.edges| && Source(r, u) == s
      ensures r.forward[v] {
      SameChains(g, r, u);
      UnderIsSource(g, u, s);
      assert g.forward[v] || r.parents[v] == Without(g.parents[v], Reach(g, s));
    }
  }

  /** The graph after stage `s` has run: executed if it was new, then pushed unless it is the action. */
  ghost predicate StageRun(g: Graph, r: Graph, a: nat, s: nat)
    requires Linked(g) && s < |g.edges|
  {
    && Linked(r) && ValidGraph(r) && Shrunk(g, r)
    && r.state == g.state[s := Executed]
    && (s != a ==> Drained(r, s))
    && forall v: nat, i: nat | IsPlace(g, v, i) :: DeliversFrom(g, r, v, i, s != a && Supplier(g, v, i) == s)
  }

  lemma StageKeepsProgress(g0: Graph, g: Graph, r: Graph, a: nat, order: seq<nat>, k: nat, s: nat)
    requires Linked(g0) && a < |g0.edges| && Progress(g0, g, a, order, k) && 0 < k && s == order[k - 1]
    requires s < |g.edges| && !g.forward[s] && StageRun(g, r, a, s)
    ensures Progress(g0, r, a, order, k - 1)
  {
    ShrunkTransitive(g0, g, r);
    forall v: nat ensures v in order[k - 1..] <==> v == s || v in order[k..] { FromPlace(order, k, v); }
    forall v: nat | v < |r.edges| && v in order[k - 1..] && !r.forward[v]
      ensures r.state[v] == Executed && (v != a ==> Drained(r, v)) {
      if v != s && v != a { DrainedStays(g, r, v); }
    }
    StageDelivers(g0, g, r, a, order, k, k - 1, s);
  }

  lemma StageDelivers(g0: Graph, g: Graph, r: Graph, a: nat, order: seq<nat>, k: nat, k': nat, s: nat)
    requires Linked(g0) && Linked(g) && Shrunk(g0, g) && 0 < k <= |order| && k' == k - 1 && s == order[k']
    requires DeliversSoFar(g0, g, a, order, k) && s < |g.edges|
    requires forall v: nat, i: nat | IsPlace(g, v, i) :: DeliversFrom(g, r, v, i, s != a && Supplier(g, v, i) == s)
    ensures DeliversSoFar(g0, r, a, order, k')
  {
    forall v: nat, i: nat | IsPlace(g0, v, i)
      ensures DeliversFrom(g0, r, v, i, Supplier(g0, v, i) != a && Supplier(g0, v, i) in order[k'..]) {
      assert DeliversFrom(g0, g, v, i, Supplier(g0, v, i) != a && Supplier(g0, v, i) in order[k..]);
      SameChains(g0, g, g0.edges[v][i]);
      assert IsPlace(g, v, i) && Supplier(g, v, i) == Supplier(g0, v, i);
      FromPlace(order, k, Supplier(g0, v, i));
    }
  }

  /** An action makes the edge deliver: its supplier is needed, and is not the action itself. */
  ghost predicate DeliveredFor(g: Graph, a: nat, v: nat, i: nat)
    requires Linked(g) && a < |g.edges| && IsPlace(g, v, i)
  {
    Supplier(g, v, i) != Source(g, a) && Needed(g, Source(g, a), Supplier(g, v, i))
  }

  /** Once all stages have run, exactly the edges of needed suppliers have delivered in addition. */
  lemma AllDeliver(g0: Graph, g: Graph, a: nat, order: seq<nat>)
    requires ValidGraph(g0) && a < |g0.edges| && !g0.forward[a] && Progress(g0, g, a, order, 0)
    ensures forall v: nat, i: nat | IsPlace(g0, v, i) :: DeliversFrom(g0, g, v, i, DeliveredFor(g0, a, v, i))
  {
    forall v: nat, i: nat | IsPlace(g0, v, i) ensures DeliversFrom(g0, g, v, i, DeliveredFor(g0, a, v, i)) {
      AllOfOrder(g0, a, order, Supplier(g0, v, i));
      assert DeliversFrom(g0, g, v, i, Supplier(g0, v, i) != a && Supplier(g0, v, i) in order[0..]);
    }
  }

  lemma AllOfOrder(g: Graph, a: nat, order: seq<nat>, p: nat)
    requires Linked(g) && a < |g.edges| && !g.forward[a] && Order(g, a, order)
    ensures p in order[0..] <==> Needed(g, Source(g, a), p)
  {
    assert order[0..] == order;
    assert p in order <==> Needed(g, a, p);
  }

  /** Once all stages have run, exactly the needed nodes have executed in addition. */
  lemma AllRun(g0: Graph, g: Graph, a: nat, order: seq<nat>)
    requires ValidGraph(g0) && a < |g0.edges| && Progress(g0, g, a, order, 0)
    ensures Linked(g) && |g.edges| == |g0.edges|
    ensures forall v: nat | v < |g.edges| ::
              g.state[v] == Executed <==> g0.state[v] == Executed || (!g0.forward[v] && Needed(g0, a, v))
  {
    assert order[0..] == order;
    forall v: nat | v < |g.edges|
      ensures g.state[v] == Executed <==> g0.state[v] == Executed || (!g0.forward[v] && Needed(g0, a, v)) {
      assert ForwardNode(g, v);
    }
  }
}
