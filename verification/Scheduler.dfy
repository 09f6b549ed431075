/**
 The scheduler's methods on the graph of DIA nodes (thrill/api/dia_base.cpp:302-443,
 thrill/api/dia_node.hpp:67-144).
 */
module Scheduler {
  import opened Lists
  import opened StageGraph
  import opened StageOrder

  class Nodes {
    var forward: seq<bool>
    var state: seq<DIAState>
    var parents: seq<seq<nat>>
    var children: seq<seq<Child>>
    ghost var edges: seq<seq<nat>>
    ghost var log: seq<Event>

    ghost function View(): Graph
      reads this
    {
      Graph(forward, state, parents, children, edges, log)
    }

    ghost predicate Valid()
      reads this
    {
      ValidGraph(View())
    }

    constructor ()
      ensures Valid() && edges == [] && log == []
    {
      forward, state, parents, children, edges, log := [], [], [], [], [], [];
    }

    /** A node is created: it registers as a child with each of its parents. */
    method NewNode(collapse: bool, inputs: seq<nat>) returns (id: nat)
      requires Valid() && (forall u | u in inputs :: u < |edges|) && (collapse ==> |inputs| == 1)
      modifies this
      ensures Valid() && id == old(|edges|) && View() == Added(old(View()), collapse, inputs)
      ensures forward == old(forward) + [collapse] && state == old(state) + [New] && log == old(log)
      ensures parents == old(parents) + [inputs] && edges == old(edges) + [inputs]
      ensures |children| == id + 1 && children[id] == []
      ensures forall i: nat | i < |inputs| :: inputs[i] < id && Child(id, i) in children[inputs[i]]
      ensures forall u: nat | u < id :: RegisteredOnce(old(children)[u], children[u], id, inputs, u)
    {
      ghost var g := View();
      AddKeepsValid(g, collapse, inputs);
      id := |forward|;
      forward, state, parents, edges := forward + [collapse], state + [New], parents + [inputs], edges + [inputs];
      RegisterNone(g, inputs);
      for i := 0 to |inputs|
        modifies this`children
        invariant children == Registered(g, inputs, i)
      {
        RegisterNext(g, inputs, i);
        AddChild(inputs[i], Child(id, i));
      }
      children := children + [[]];
      assert children == Added(g, collapse, inputs).children;
      RegisteredWithAll(g, collapse, inputs);
    }

    method AddChild(u: nat, ch: Child)
      requires u < |children|
      modifies this`children
      ensures children == old(children)[u := old(children)[u] + [ch]]
    {
      children := children[u := children[u] + [ch]];
    }

    /** RemoveParent: all references of a node to one of its parents. */
    method RemoveParent(c: nat, p: nat)
      requires c < |parents|
      modifies this`parents
      ensures parents == old(parents)[c := Without(old(parents)[c], {p})]
    {
      parents := parents[c := Without(parents[c], {p})];
    }

    /** The first step of RemoveAllChildren: executable children lose this parent, Collapse nodes stay. */
    method EraseChildren(u: nat)
      requires Linked(View()) && u < |edges|
      modifies this`parents, this`children
      ensures View() == Prune(old(View()), {u})
    {
      ghost var g := View();
      var all: seq<Child>, kept: seq<Child> := children[u], [];
      for k := 0 to |all|
        invariant forward == g.forward && children == g.children
        invariant kept == KeepForward(forward, all[..k])
        invariant parents == ErasedParents(g, all, u, k)
      {
        ChildHasParent(g, u, all[k]);
        assert all[..k + 1][..k] == all[..k] && all[..k + 1] == all[..k] + [all[k]];
        if forward[all[k].node] {
          kept := kept + [all[k]];
        } else {
          RemoveParent(all[k].node, u);
        }
      }
      assert all[..|all|] == all;
      children := children[u := kept];
      AllErased(g, u);
      assert children == Prune(g, {u}).children;
    }

    /** RemoveAllChildren: through all Collapse nodes, executable children lose their parents. */
    method RemoveAllChildren(u: nat, ghost g: Graph, ghost gone: set<nat>)
      requires Linked(g) && u < |g.edges| && View() == Prune(g, gone)
      modifies this`parents, this`children
      ensures View() == Prune(g, gone + Reach(g, u))
      decreases |g.edges| - u, 1
    {
      PruneKeepsLinks(g, gone);
      EraseChildren(u);
      PruneTwice(g, gone, {u});
      KeptChildren(g, gone, u);
      RecurseIntoChildren(u, g, gone + {u});
      ReachSplits(g, u);
      assert gone + {u} + ReachOf(g, KeepForward(g.forward, g.children[u])) == gone + Reach(g, u);
    }

    /** The second step of RemoveAllChildren: the Collapse nodes that stayed. */
    method RecurseIntoChildren(u: nat, ghost g: Graph, ghost start: set<nat>)
      requires Linked(g) && u < |g.edges| && View() == Prune(g, start)
      requires children[u] == KeepForward(g.forward, g.children[u])
      modifies this`parents, this`children
      ensures View() == Prune(g, start + ReachOf(g, KeepForward(g.forward, g.children[u])))
      decreases |g.edges| - u, 0
    {
      var kept := children[u];
      ghost var now := start;
      for k := 0 to |kept|
        invariant View() == Prune(g, now) && now == start + ReachOf(g, kept[..k])
      {
        ForwardEntry(g, u, kept[k]);
        RemoveAllChildren(kept[k].node, g, now);
        now := now + Reach(g, kept[k].node);
        assert kept[..k + 1][..k] == kept[..k];
      }
      assert kept[..|kept|] == kept;
    }

    /** RunPushData: all data goes to every child, through Collapse nodes to their children. */
    method RunPushData(u: nat, ghost g: Graph) returns (ghost d: seq<Event>)
      requires Linked(g) && u < |g.edges| && View() == g.(log := log)
      modifies this`log
      ensures log == old(log) + d && Delivers(g, u, d)
      decreases |g.edges| - u
    {
      var all := children[u];
      d := [];
      for k := 0 to |all|
        invariant log == old(log) + d && DeliversFirst(g, u, k, d)
      {
        ChildHasParent(g, u, all[k]);
        ghost var more := [Deliver(all[k].node, all[k].index)];
        if forward[all[k].node] {
          more := RunPushData(all[k].node, g);
        } else {
          log := log + more;
        }
        NextDelivers(g, u, k, d, more);
        d := d + more;
      }
      AllDelivered(g, u, d);
    }

    /** Stage::PushData: push, then remove the filled children. */
    method PushData(u: nat) returns (ghost d: seq<Event>)
      requires Valid() && u < |edges| && !forward[u] && state[u] == Executed
      modifies this`log, this`parents, this`children
      ensures Valid() && Delivers(old(View()), u, d) && View() == Pushed(old(View()), u, d)
    {
      ghost var g := View();
      d := RunPushData(u, g);
      ghost var pushed := View();
      LogDoesNotLink(g, pushed.log);
      PruneNothing(pushed);
      RemoveAllChildren(u, pushed, {});
      ReachSame(g, pushed, u);
      assert {} + Reach(pushed, u) == Reach(g, u);
      PushKeepsValid(g, u, d);
    }

    /** Stage::Execute. */
    method Execute(u: nat)
      requires Valid() && u < |edges| && !forward[u] && state[u] == New && parents[u] == []
      modifies this`state, this`log
      ensures Valid() && View() == Ran(old(View()), u)
    {
      RunKeepsValid(View(), u);
      state := state[u := Executed];
      log := log + [StageGraph.Execute(u)];
    }

    /** FindStages: breadth-first over parents, all that have to run or push for the action. */
    method FindStages(action: nat) returns (stages: set<nat>)
      requires Valid() && action < |edges|
      ensures forall v: nat :: v in stages <==> Needed(View(), action, v)
    {
      ghost var g := View();
      var queue: seq<nat> := [action];
      stages := {action};
      while queue != []
        invariant Searched(g, action, stages, queue)
        decreases Unseen(g, stages), |queue|
      {
        assert queue == [queue[0]] + queue[1..];
        ghost var before := stages;
        stages, queue := SearchParents(queue[0], stages, queue[1..], action);
        if stages != before { FewerUnseen(g, before, stages); }
      }
      forall v: nat | Needed(g, action, v) ensures v in stages { ClosedHoldsNeeded(g, action, stages, v); }
    }

    /** The parents of one stage: new ones become stages, and are searched on unless they only have to push. */
    method SearchParents(curr: nat, stages: set<nat>, queue: seq<nat>, ghost action: nat)
      returns (stages': set<nat>, queue': seq<nat>)
      requires Valid() && action < |edges| && Searched(View(), action, stages, [curr] + queue)
      ensures Searched(View(), action, stages', queue')
      ensures stages <= stages' && (stages' == stages ==> queue' == queue)
    {
      StartSearching(View(), action, stages, curr, queue);
      stages', queue' := stages, queue;
      for i := 0 to |parents[curr]|
        invariant Searching(View(), action, stages', queue', curr, i)
        invariant stages <= stages' && (stages' == stages ==> queue' == queue)
      {
        var p := parents[curr][i];
        SearchParent(View(), action, stages', queue', curr, i);
        if p in stages' { continue; }
        stages' := stages' + {p};
        if forward[curr] || state[p] == New { queue' := queue' + [p]; }
      }
      EndSearching(View(), action, stages', queue', curr);
    }

    /** TopoSortVisit: depth-first over the children in the set; the cycle mark is never met. */
    method TopoSortVisit(s: nat, stages: set<nat>, cycle: set<nat>, seen: set<nat>, result: seq<nat>)
      returns (seen': set<nat>, result': seq<nat>)
      requires Valid() && s < |edges| && s in stages && forall x | x in cycle :: x < s
      requires ChildrenFirst(View(), stages, result) && forall v :: v in seen <==> v in result
      ensures ChildrenFirst(View(), stages, result') && forall v :: v in seen' <==> v in result'
      ensures s in seen' && seen <= seen' && forall v | v in seen' :: v in seen || v >= s
      decreases |edges| - s
    {
      assert s !in cycle;
      seen', result' := seen, result;
      if s in seen { return; }
      var marked := cycle + {s};
      for k := 0 to |children[s]|
        invariant ChildrenFirst(View(), stages, result') && forall v :: v in seen' <==> v in result'
        invariant seen <= seen' && forall v | v in seen' :: v in seen || v > s
        invariant forall x | 0 <= x < k && children[s][x].node in stages :: children[s][x].node in seen'
      {
        ChildHasParent(View(), s, children[s][k]);
        if children[s][k].node !in stages { continue; }
        seen', result' := TopoSortVisit(children[s][k].node, stages, marked, seen', result');
      }
      AppendStage(View(), stages, result', s);
      seen' := seen' + {s};
      result' := result' + [s];
    }

    /** TopoSortStages: all stages in the order of their ids. */
    method TopoSortStages(stages: set<nat>) returns (result: seq<nat>)
      requires Valid() && forall v | v in stages :: v < |edges|
      ensures ChildrenFirst(View(), stages, result) && forall v | v in stages :: v in result
    {
      var seen: set<nat> := {};
      result := [];
      for s := 0 to |forward|
        invariant ChildrenFirst(View(), stages, result) && forall v :: v in seen <==> v in result
        invariant forall v | v in stages && v < s :: v in seen
      {
        if s in stages && s !in seen { seen, result := TopoSortVisit(s, stages, {}, seen, result); }
      }
    }

    /** One turn of RunScope's loop: a new stage executes, and all but the action push. */
    method RunStage(s: nat, action: nat)
      requires Valid() && s < |edges| && !forward[s] && (state[s] == New ==> parents[s] == [])
      modifies this`state, this`log, this`parents, this`children
      ensures StageRun(old(View()), View(), action, s)
    {
      ghost var g := View();
      if state[s] == New { Execute(s); } else { StandStill(g, s); }
      ghost var g1 := View();
      if s != action {
        ghost var d := PushData(s);
        PushedIsLinked(g1, s, d);
        PushShrinks(g1, s, d);
        PushDrains(g1, s, d);
        ShrunkTransitive(g, g1, View());
        RunDelivers(g, g1, s, d);
      }
    }

    /** RunScope leaves its target executed; besides what had executed, exactly the nodes it needs have. */
    method RunScope(action: nat)
      requires Valid() && action < |edges|
      modifies this`state, this`log, this`parents, this`children
      ensures Valid() && Shrunk(old(View()), View())
      ensures state[Source(View(), action)] == Executed
      ensures forall v: nat | v < |edges| :: state[v] == Executed <==>
                old(state)[v] == Executed || (!forward[v] && Needed(old(View()), Source(old(View()), action), v))
      ensures forall v: nat, i: nat | IsPlace(old(View()), v, i) ::
                Deliver(v, i) in log <==> Deliver(v, i) in old(log) || DeliveredFor(old(View()), action, v, i)
      decreases action
    {
      ghost var g := View();
      if state[action] == Executed {
        ExecutedNeedsNothing(g, action);
        ExecutedDeliversNothing(g, action);
        return;
      }
      if forward[action] {
        ForwardHasOneParent(g, action);
        ForwardDelivers(g, action);
        RunScope(parents[action][0]);
        SameChains(g, View(), action);
        return;
      }
      RunStages(action);
      SameChains(g, View(), action);
    }

    /** The stages of an action: found, sorted, and run from the back of the order. */
    method RunStages(action: nat)
      requires Valid() && action < |edges| && !forward[action]
      modifies this`state, this`log, this`parents, this`children
      ensures Valid() && Shrunk(old(View()), View()) && |edges| == |old(edges)|
      ensures forall v: nat | v < |edges| :: state[v] == Executed <==>
                old(state)[v] == Executed || (!forward[v] && Needed(old(View()), action, v))
      ensures forall v: nat, i: nat | IsPlace(old(View()), v, i) ::
                DeliversFrom(old(View()), View(), v, i, DeliveredFor(old(View()), action, v, i))
    {
      ghost var g := View();
      var stages := FindStages(action);
      NeededInRange(g, action, stages);
      var order := TopoSortStages(stages);
      ChildrenFirstIsOrder(g, action, stages, order);
      FrontIsAction(g, action, stages, order);
      assert order[0] == action;
      StartRunning(g, action, order);
      var k := |order|;
      while k > 0
        invariant 0 <= k <= |order| && Progress(g, View(), action, order, k)
      {
        RunNext(action, order, k, g);
        k := k - 1;
      }
      AllRun(g, View(), action, order);
      AllDeliver(g, View(), action, order);
    }

    /** The stage at the back of the order: Collapse nodes are skipped. */
    method RunNext(action: nat, order: seq<nat>, k: nat, ghost g: Graph)
      requires Linked(g) && action < |g.edges| && 0 < k <= |order| && Progress(g, View(), action, order, k)
      modifies this`state, this`log, this`parents, this`children
      ensures Progress(g, View(), action, order, k - 1)
    {
      var s := order[k - 1];
      if forward[s] {
        SkipStage(g, View(), action, order, k);
      } else {
        ghost var before := View();
        ReadyToRun(g, before, action, order, k, s);
        RunStage(s, action);
        StageKeepsProgress(g, before, View(), action, order, k, s);
      }
    }
  }

  // ---------------------------------------------------------------- the search for stages

  ghost predicate ParentsIn(g: Graph, v: nat, stages: set<nat>)
    requires Sized(g) && v < |g.edges|
  {
    forall u | u in g.parents[v] :: u in stages
  }

  ghost function Unseen(g: Graph, stages: set<nat>): set<nat> {
    set v: nat | v < |g.edges| && v !in stages
  }

  lemma FewerUnseen(g: Graph, before: set<nat>, after: set<nat>)
    requires before < after && forall v | v in after :: v < |g.edges|
    ensures Unseen(g, after) < Unseen(g, before)
  {
    var v :| v in after && v !in before;
    assert v in Unseen(g, before) && v !in Unseen(g, after);
  }

  /** Every stage found is needed; those no longer in the queue have their parents among the stages. */
  ghost predicate Searched(g: Graph, a: nat, stages: set<nat>, queue: seq<nat>)
    requires Linked(g) && a < |g.edges|
  {
    && a in stages && (forall v | v in stages :: v < |g.edges| && Needed(g, a, v))
    && (forall v | v in queue :: v in stages)
    && forall v | v in stages :: v in queue || ParentsIn(g, v, stages)
  }

  /** The same while the first `i` parents of `curr` have been looked at. */
  ghost predicate Searching(g: Graph, a: nat, stages: set<nat>, queue: seq<nat>, curr: nat, i: nat)
    requires Linked(g) && a < |g.edges|
  {
    && a in stages && (forall v | v in stages :: v < |g.edges| && Needed(g, a, v))
    && (forall v | v in queue :: v in stages)
    && curr in stages && curr < |g.edges| && i <= |g.parents[curr]|
    && (forall v | v in stages && v != curr :: v in queue || ParentsIn(g, v, stages))
    && forall x | 0 <= x < i :: g.parents[curr][x] in stages
  }

  lemma StartSearching(g: Graph, a: nat, stages: set<nat>, curr: nat, rest: seq<nat>)
    requires Linked(g) && a < |g.edges| && Searched(g, a, stages, [curr] + rest)
    ensures Searching(g, a, stages, rest, curr, 0)
  {
    forall v | v in rest ensures v in stages { assert v in [curr] + rest; }
    forall v | v in stages && v != curr ensures v in rest || ParentsIn(g, v, stages) {
      assert v in [curr] + rest <==> v in rest;
    }
    assert ([curr] + rest)[0] == curr;
  }

  lemma EndSearching(g: Graph, a: nat, stages: set<nat>, queue: seq<nat>, curr: nat)
    requires Linked(g) && a < |g.edges| && curr < |g.edges| && Searching(g, a, stages, queue, curr, |g.parents[curr]|)
    ensures Searched(g, a, stages, queue)
  {
    assert ParentsIn(g, curr, stages);
  }

  lemma SearchParent(g: Graph, a: nat, stages: set<nat>, queue: seq<nat>, curr: nat, i: nat)
    requires ValidGraph(g) && a < |g.edges| && Searching(g, a, stages, queue, curr, i) && i < |g.parents[curr]|
    ensures var p := g.parents[curr][i];
            && p < |g.edges|
            && (p in stages ==> Searching(g, a, stages, queue, curr, i + 1))
            && (p !in stages ==> Searching(g, a, stages + {p}, queue + [p], curr, i + 1))
            && (p !in stages && g.state[p] == Executed ==> Searching(g, a, stages + {p}, queue, curr, i + 1))
  {
    var p := g.parents[curr][i];
    assert p in g.parents[curr];
    NeededParent(g, a, curr, p);
    assert HistoryOfNode(g, p);
    AddStage(g, a, stages, queue, curr, i, p, queue + [p]);
    if g.state[p] == Executed { AddStage(g, a, stages, queue, curr, i, p, queue); }
  }

  /** A stage is added: it joins the queue, or has no parents left. */
  lemma AddStage(g: Graph, a: nat, stages: set<nat>, queue: seq<nat>, curr: nat, i: nat, p: nat, queue': seq<nat>)
    requires Linked(g) && a < |g.edges| && Searching(g, a, stages, queue, curr, i) && i < |g.parents[curr]|
    requires p == g.parents[curr][i] && p < |g.edges| && Needed(g, a, p)
    requires queue' == queue + [p] || (queue' == queue && g.parents[p] == [])
    ensures Searching(g, a, stages + {p}, queue', curr, i + 1)
  {
    forall v | v in stages && ParentsIn(g, v, stages) ensures ParentsIn(g, v, stages + {p}) { }
    forall v | v in queue' ensures v in stages + {p} { }
    forall v | v in stages + {p} && v != curr ensures v in queue' || ParentsIn(g, v, stages + {p}) {
      if v == p && queue' == queue + [p] { assert queue'[|queue|] == p; }
    }
  }

  /** The parents after the first `k` children in `all` have been looked at. */
  ghost function ErasedParents(g: Graph, all: seq<Child>, u: nat, k: nat): (r: seq<seq<nat>>)
    requires Sized(g) && k <= |all|
    ensures |r| == |g.parents|
  {
    if k == 0 then g.parents else
      var before, c := ErasedParents(g, all, u, k - 1), all[k - 1].node;
      if c >= |g.forward| || g.forward[c] then before else before[c := Without(before[c], {u})]
  }

  ghost predicate Entered(s: seq<Child>, v: nat, k: nat)
    requires k <= |s|
  {
    exists x | 0 <= x < k :: s[x].node == v
  }

  lemma WithoutAgain(s: seq<nat>, u: nat)
    ensures Without(Without(s, {u}), {u}) == Without(s, {u})
  {
    WithoutNothing(Without(s, {u}), {u});
  }

  lemma ErasedNext(g: Graph, all: seq<Child>, u: nat, k: nat, v: nat)
    requires Sized(g) && k < |all| && v < |g.parents|
    ensures ErasedParents(g, all, u, k + 1)[v]
         == if !g.forward[v] && all[k].node == v then Without(ErasedParents(g, all, u, k)[v], {u})
            else ErasedParents(g, all, u, k)[v]
  {
  }

  lemma EnteredNext(s: seq<Child>, v: nat, k: nat)
    requires k < |s|
    ensures Entered(s, v, k + 1) <==> Entered(s, v, k) || s[k].node == v
  {
  }

  lemma {:induction false} ErasedAt(g: Graph, all: seq<Child>, u: nat, k: nat, v: nat)
    requires Sized(g) && k <= |all| && v < |g.parents|
    ensures ErasedParents(g, all, u, k)[v]
         == if !g.forward[v] && Entered(all, v, k) then Without(g.parents[v], {u}) else g.parents[v]
    decreases k
  {
    if k > 0 {
      ErasedAt(g, all, u, k - 1, v);
      ErasedNext(g, all, u, k - 1, v);
      EnteredNext(all, v, k - 1);
      WithoutAgain(g.parents[v], u);
    }
  }

  lemma AllErased(g: Graph, u: nat)
    requires Linked(g) && u < |g.edges|
    ensures ErasedParents(g, g.children[u], u, |g.children[u]|) == Prune(g, {u}).parents
  {
    var all := g.children[u];
    forall v: nat | v < |g.parents|
      ensures ErasedParents(g, all, u, |all|)[v]
           == (if g.forward[v] then g.parents[v] else Without(g.parents[v], {u})) {
      ErasedAt(g, all, u, |all|, v);
      if !Entered(all, v, |all|) {
        if u in g.parents[v] { var ch := ParentHasChild(g, v, u); }
        WithoutNothing(g.parents[v], {u});
      }
    }
  }

  // ---------------------------------------------------------------- removing children

  lemma KeptChildren(g: Graph, gone: set<nat>, u: nat)
    requires Linked(g) && u < |g.edges|
    ensures Prune(g, gone + {u}).children[u] == KeepForward(g.forward, g.children[u])
  {
  }

  ghost function ReachOf(g: Graph, s: seq<Child>): set<nat>
    requires Linked(g)
  {
    if s == [] then {} else ReachOf(g, s[..|s| - 1]) + Reach(g, s[|s| - 1].node)
  }

  lemma {:induction false} ReachOfMember(g: Graph, s: seq<Child>, w: nat)
    requires Linked(g)
    ensures w in ReachOf(g, s) <==> exists x | 0 <= x < |s| :: w in Reach(g, s[x].node)
  {
    if s != [] {
      ReachOfMember(g, s[..|s| - 1], w);
      assert w in ReachOf(g, s[..|s| - 1]) <==> exists x | 0 <= x < |s| - 1 :: w in Reach(g, s[x].node);
    }
  }

  lemma ForwardEntry(g: Graph, u: nat, ch: Child)
    requires Linked(g) && u < |g.edges| && ch in KeepForward(g.forward, g.children[u])
    ensures u < ch.node < |g.edges| && g.forward[ch.node]
  {
    ChildHasParent(g, u, ch);
  }

  /** What is under a node: itself, and what is under its Collapse children. */
  lemma ReachSplits(g: Graph, u: nat)
    requires Linked(g) && u < |g.edges|
    ensures var kept := KeepForward(g.forward, g.children[u]); Reach(g, u) == {u} + ReachOf(g, kept)
  {
    var kept := KeepForward(g.forward, g.children[u]);
    forall w | w in Reach(g, u) && w != u ensures w in ReachOf(g, kept) {
      var v := FirstOnChain(g, w, u);
      assert Child(v, 0) in kept;
      var x :| 0 <= x < |kept| && kept[x] == Child(v, 0);
      ReachOfMember(g, kept, w);
      assert w in Reach(g, kept[x].node);
    }
    forall w | w in ReachOf(g, kept) ensures w in Reach(g, u) {
      ReachOfMember(g, kept, w);
      var x :| 0 <= x < |kept| && w in Reach(g, kept[x].node);
      UnderKeptChild(g, u, kept[x], w);
    }
  }

  lemma UnderKeptChild(g: Graph, u: nat, ch: Child, w: nat)
    requires Linked(g) && u < |g.edges| && ch in KeepForward(g.forward, g.children[u]) && w < |g.edges|
          && Under(g, w, ch.node)
    ensures Under(g, w, u)
  {
    assert NodeLinked(g, u) && IsEdge(g, u, ch) && ForwardNode(g, ch.node);
    ChainExtends(g, w, ch.node);
  }

  lemma {:induction false} WithoutNone(s: seq<nat>)
    ensures Without(s, {}) == s
  {
    WithoutNothing(s, {});
  }

  lemma PruneNothing(g: Graph)
    requires Linked(g)
    ensures Prune(g, {}) == g
  {
    forall v: nat | v < |g.edges| ensures Without(g.parents[v], {}) == g.parents[v] { WithoutNone(g.parents[v]); }
    assert Prune(g, {}).parents == g.parents && Prune(g, {}).children == g.children;
  }

  lemma ReachSame(g: Graph, r: Graph, u: nat)
    requires Linked(g) && Linked(r) && g.edges == r.edges && g.forward == r.forward
    ensures Reach(g, u) == Reach(r, u)
  {
    forall w: nat | w < |g.edges| ensures Under(g, w, u) <==> Under(r, w, u) { SameChains(g, r, w); }
  }

  // ---------------------------------------------------------------- pushing

  /** What the first `k` children of `u` take. */
  ghost predicate DeliversFirst(g: Graph, u: nat, k: nat, d: seq<Event>)
    requires Linked(g) && u < |g.edges| && k <= |g.children[u]|
  {
    && Distinct(d)
    && (forall e | e in d :: exists x | 0 <= x < k :: TakenBy(g, u, x, e))
    && (forall e, x | 0 <= x < k && TakenBy(g, u, x, e) :: e in d)
  }

  ghost predicate TakenBy(g: Graph, u: nat, x: int, e: Event)
    requires Linked(g) && u < |g.edges| && 0 <= x < |g.children[u]|
  {
    g.children[u][x].node < |g.edges| && FromChild(g, g.children[u][x], e)
  }

  lemma TakenOnce(g: Graph, u: nat, x: int, y: int, e: Event)
    requires Linked(g) && u < |g.edges| && 0 <= x < |g.children[u]| && 0 <= y < |g.children[u]|
    requires TakenBy(g, u, x, e) && TakenBy(g, u, y, e)
    ensures x == y
  {
    ChildrenApart(g, u, g.children[u][x], g.children[u][y], e);
    assert NodeLinked(g, u);
  }

  lemma NextDelivers(g: Graph, u: nat, k: nat, d: seq<Event>, more: seq<Event>)
    requires Linked(g) && u < |g.edges| && k < |g.children[u]| && DeliversFirst(g, u, k, d)
    requires g.children[u][k].node < |g.edges|
    requires Distinct(more) && forall e :: e in more <==> FromChild(g, g.children[u][k], e)
    ensures DeliversFirst(g, u, k + 1, d + more)
  {
    forall e | e in d ensures e !in more {
      var x :| 0 <= x < k && TakenBy(g, u, x, e);
      if e in more { TakenOnce(g, u, x, k, e); }
    }
    DistinctAppend(d, more);
    forall e | e in d + more ensures exists x | 0 <= x < k + 1 :: TakenBy(g, u, x, e) {
      if e in more { assert TakenBy(g, u, k, e); }
    }
  }

  lemma AllDelivered(g: Graph, u: nat, d: seq<Event>)
    requires Linked(g) && u < |g.edges| && DeliversFirst(g, u, |g.children[u]|, d)
    ensures Delivers(g, u, d)
  {
    forall e ensures e in d <==> Delivery(g, u, e) {
      if e in d {
        var x :| 0 <= x < |g.children[u]| && TakenBy(g, u, x, e);
        ChildDelivers(g, u, g.children[u][x], e);
      }
      if Delivery(g, u, e) {
        DeliveryThroughChild(g, u, e);
        var ch :| ch in g.children[u] && ch.node < |g.edges| && FromChild(g, ch, e);
        var x :| 0 <= x < |g.children[u]| && g.children[u][x] == ch;
        assert TakenBy(g, u, x, e);
      }
    }
  }

  // ---------------------------------------------------------------- running

  lemma StandStill(g: Graph, s: nat)
    requires Linked(g) && s < |g.edges| && g.state[s] == Executed
    ensures Shrunk(g, g) && g.state[s := Executed] == g.state
  {
  }

  lemma ExecutedNeedsNothing(g: Graph, a: nat)
    requires ValidGraph(g) && a < |g.edges| && g.state[a] == Executed
    ensures !g.forward[a] && Source(g, a) == a && Shrunk(g, g)
    ensures forall v: nat :: Needed(g, a, v) ==> v == a
  {
    assert HistoryOfNode(g, a) && ForwardNode(g, a);
  }

  lemma ExecutedDeliversNothing(g: Graph, a: nat)
    requires ValidGraph(g) && a < |g.edges| && g.state[a] == Executed
    ensures forall v: nat, i: nat | IsPlace(g, v, i) :: !DeliveredFor(g, a, v, i)
  {
    ExecutedNeedsNothing(g, a);
  }

  lemma ForwardDelivers(g: Graph, a: nat)
    requires Linked(g) && a < |g.edges| && g.forward[a] && |g.parents[a]| == 1 && g.parents[a][0] < a
    ensures forall v: nat, i: nat | IsPlace(g, v, i) ::
              DeliveredFor(g, a, v, i) <==> DeliveredFor(g, g.parents[a][0], v, i)
  {
    ForwardHasOneParent(g, a);
  }

  /** A stage that has executed, if it was new, and pushed: its edges have delivered, and no others. */
  lemma RunDelivers(g: Graph, g1: Graph, s: nat, d: seq<Event>)
    requires ValidGraph(g) && ValidGraph(g1) && s < |g.edges| && !g.forward[s] && (g1 == g || g1 == Ran(g, s))
    requires Delivers(g1, s, d)
    ensures forall v: nat, i: nat | IsPlace(g, v, i) :: DeliversFrom(g, Pushed(g1, s, d), v, i, Supplier(g, v, i) == s)
  {
    forall v: nat, i: nat | IsPlace(g, v, i)
      ensures DeliversFrom(g, Pushed(g1, s, d), v, i, Supplier(g, v, i) == s) {
      PushDelivers(g1, s, d, v, i);
      SameChains(g, g1, g.edges[v][i]);
    }
  }

  lemma ForwardHasOneParent(g: Graph, a: nat)
    requires Linked(g) && a < |g.edges| && g.forward[a]
    ensures |g.parents[a]| == 1 && g.parents[a][0] < a && Source(g, a) == Source(g, g.parents[a][0])
  {
    assert ForwardNode(g, a);
  }

  lemma NeededInRange(g: Graph, a: nat, stages: set<nat>)
    requires Linked(g) && a < |g.edges| && forall v: nat :: v in stages <==> Needed(g, a, v)
    ensures forall v | v in stages :: v < |g.edges|
  {
    forall v | v in stages ensures v < |g.edges| { NeededBound(g, a, v); }
  }

  lemma StartRunning(g: Graph, a: nat, order: seq<nat>)
    requires ValidGraph(g) && a < |g.edges| && Order(g, a, order)
    ensures Progress(g, g, a, order, |order|)
  {
  }
}
