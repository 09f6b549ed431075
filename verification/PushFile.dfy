/**
 Pushing items and whole files through Collapse nodes (thrill/api/dia_node.hpp:136-177,
 thrill/api/collapse.hpp:42-77, thrill/api/cache.hpp:33-62), and the targets a stage counts
 (thrill/api/dia_base.cpp:45-65).

 A child is reached through a stack of functions; a stack that is empty passes every item on unchanged.
 Caches take a whole file, Collapse nodes hand it on, both only behind an empty stack; other receivers
 take items.
 */
module PushFile {

  datatype Node<!T> = Receiver(id: nat, cache: bool) | Collapse(id: nat, children: seq<Child<T>>)

  datatype Child<!T> = Child(stack: T -> seq<T>, stackEmpty: bool, node: Node<T>)

  // ---------------------------------------------------------------- what a receiver gets, item by item

  /** What receiver `id` gets when `x` is pushed into `n`. */
  ghost function Gets<T>(n: Node<T>, x: T, id: nat): seq<T>
    decreases n, 1, 0
  {
    match n
    case Receiver(r, _) => if r == id then [x] else []
    case Collapse(_, children) => GetsFirst(n, |children|, x, id)
  }

  ghost function GetsFirst<T>(n: Node<T>, k: nat, x: T, id: nat): seq<T>
    requires n.Collapse? && k <= |n.children|
    decreases n, 0, k
  {
    if k == 0 then [] else
      GetsFirst(n, k - 1, x, id) + GetsAll(n.children[k - 1].node, n.children[k - 1].stack(x), id)
  }

  /** What receiver `id` gets when `items` are pushed into `n` one by one. */
  ghost function GetsAll<T>(n: Node<T>, items: seq<T>, id: nat): seq<T>
    decreases n, 2, |items|
  {
    if items == [] then [] else GetsAll(n, items[..|items| - 1], id) + Gets(n, items[|items| - 1], id)
  }

  ghost predicate Holds<T>(n: Node<T>, id: nat) {
    match n
    case Receiver(r, _) => r == id
    case Collapse(_, children) => exists k | 0 <= k < |children| :: Holds(children[k].node, id)
  }

  /** Every receiver is reached in one way, and empty stacks pass items on unchanged. */
  ghost predicate WellFormed<T(!new)>(n: Node<T>) {
    n.Collapse? ==>
    && (forall k | 0 <= k < |n.children| :: WellFormed(n.children[k].node))
    && (forall k: nat | k < |n.children| :: StackRight(n.children[k]))
    && (forall j: nat, k: nat, id: nat | j < k < |n.children| ::
          !(Holds(n.children[j].node, id) && Holds(n.children[k].node, id)))
  }

  ghost predicate StackRight<T(!new)>(c: Child<T>) { c.stackEmpty ==> forall x :: c.stack(x) == [x] }

  lemma {:induction false} NotHeldGetsNothing<T>(n: Node<T>, x: T, id: nat)
    requires !Holds(n, id)
    ensures Gets(n, x, id) == []
    decreases n, 1, 0
  {
    if n.Collapse? { NotHeldFirst(n, |n.children|, x, id); }
  }

  lemma {:induction false} NotHeldFirst<T>(n: Node<T>, k: nat, x: T, id: nat)
    requires n.Collapse? && k <= |n.children| && forall j | 0 <= j < k :: !Holds(n.children[j].node, id)
    ensures GetsFirst(n, k, x, id) == []
    decreases n, 0, k
  {
    if k > 0 {
      NotHeldFirst(n, k - 1, x, id);
      NotHeldAll(n.children[k - 1].node, n.children[k - 1].stack(x), id);
    }
  }

  lemma {:induction false} NotHeldAll<T>(n: Node<T>, items: seq<T>, id: nat)
    requires !Holds(n, id)
    ensures GetsAll(n, items, id) == []
    decreases n, 2, |items|
  {
    if items != [] {
      NotHeldAll(n, items[..|items| - 1], id);
      NotHeldGetsNothing(n, items[|items| - 1], id);
    }
  }

  lemma NextItem<T>(n: Node<T>, items: seq<T>, k: nat)
    requires k < |items|
    ensures forall id: nat :: GetsAll(n, items[..k + 1], id) == GetsAll(n, items[..k], id) + Gets(n, items[k], id)
  {
    assert items[..k + 1][..k] == items[..k];
  }

  /** Child `c` is the only one that holds `id`. */
  ghost predicate OnlyHolder<T>(n: Node<T>, c: nat, id: nat) {
    n.Collapse? && c < |n.children| && forall j: nat | j < |n.children| && j != c :: !Holds(n.children[j].node, id)
  }

  lemma HolderIsOnly<T(!new)>(n: Node<T>, c: nat, id: nat)
    requires n.Collapse? && WellFormed(n) && c < |n.children| && Holds(n.children[c].node, id)
    ensures OnlyHolder(n, c, id)
  {
  }

  /** A receiver held by one child gets what comes through that child. */
  lemma {:induction false} ThroughOneChild<T>(n: Node<T>, k: nat, m: nat, x: T, id: nat)
    requires OnlyHolder(n, k, id) && m <= |n.children|
    ensures GetsFirst(n, m, x, id) == if k < m then GetsAll(n.children[k].node, n.children[k].stack(x), id) else []
    decreases m
  {
    if m > 0 {
      var j := m - 1;
      ThroughOneChild(n, k, j, x, id);
      OthersGetNothing(n, k, j, n.children[j].stack(x), id);
      NextChild(n, j, m, x, id);
    }
  }

  lemma NextChild<T>(n: Node<T>, j: nat, m: nat, x: T, id: nat)
    requires n.Collapse? && m == j + 1 <= |n.children|
    ensures GetsFirst(n, m, x, id) == GetsFirst(n, j, x, id) + GetsAll(n.children[j].node, n.children[j].stack(x), id)
  {
  }

  lemma OneThroughEmptyStack<T(!new)>(n: Node<T>, k: nat, x: T, id: nat)
    requires OnlyHolder(n, k, id) && n.children[k].stackEmpty && StackRight(n.children[k])
    ensures Gets(n, x, id) == Gets(n.children[k].node, x, id)
  {
    ThroughOneChild(n, k, |n.children|, x, id);
    assert n.children[k].stack(x) == [x];
    assert [x][..0] == [];
  }

  /** Behind an empty stack, pushing into a node is pushing into the child. */
  lemma {:induction false} ThroughEmptyStack<T(!new)>(n: Node<T>, k: nat, items: seq<T>, id: nat)
    requires OnlyHolder(n, k, id) && n.children[k].stackEmpty && StackRight(n.children[k])
    ensures GetsAll(n, items, id) == GetsAll(n.children[k].node, items, id)
    decreases |items|
  {
    if items != [] {
      ThroughEmptyStack(n, k, items[..|items| - 1], id);
      OneThroughEmptyStack(n, k, items[|items| - 1], id);
    }
  }

  /** A receiver gets what is pushed into it, cache or not. */
  lemma {:induction false} ReceiverGetsAll<T>(id: nat, cache: bool, items: seq<T>)
    ensures GetsAll(Receiver(id, cache), items, id) == items
  {
    if items != [] {
      ReceiverGetsAll(id, cache, items[..|items| - 1]);
      assert items == items[..|items| - 1] + [items[|items| - 1]];
    }
  }

  /** A file taken by a cache is what saving its items one by one leaves there. */
  lemma FileIntoCache<T>(id: nat, items: seq<T>)
    ensures GetsAll(Receiver(id, true), items, id) == items
  {
    ReceiverGetsAll(id, true, items);
  }

  // ---------------------------------------------------------------- chains of children

  /** The items a stack makes of `items`, in order. */
  ghost function FlatMap<T>(f: T -> seq<T>, items: seq<T>): seq<T> {
    if items == [] then [] else f(items[0]) + FlatMap(f, items[1..])
  }

  /** The places of children on the way from `n` to receiver `id`. */
  ghost predicate LeadsTo<T>(n: Node<T>, path: seq<nat>, id: nat)
    decreases |path|
  {
    if path == [] then n.Receiver? && n.id == id
    else n.Collapse? && path[0] < |n.children| && LeadsTo(n.children[path[0]].node, path[1..], id)
  }

  /** What the stacks on the way make of `items`. */
  ghost function Mapped<T>(n: Node<T>, path: seq<nat>, items: seq<T>, id: nat): seq<T>
    requires LeadsTo(n, path, id)
    decreases |path|
  {
    if path == [] then items
    else Mapped(n.children[path[0]].node, path[1..], FlatMap(n.children[path[0]].stack, items), id)
  }

  lemma {:induction false} LeadingHolds<T>(n: Node<T>, path: seq<nat>, id: nat)
    requires LeadsTo(n, path, id)
    ensures Holds(n, id)
    decreases |path|
  {
    if path != [] {
      LeadingHolds(n.children[path[0]].node, path[1..], id);
    }
  }

  lemma {:induction false} HeldIsLedTo<T>(n: Node<T>, id: nat) returns (path: seq<nat>)
    requires Holds(n, id)
    ensures LeadsTo(n, path, id)
    decreases n
  {
    if n.Receiver? {
      path := [];
    } else {
      var k :| 0 <= k < |n.children| && Holds(n.children[k].node, id);
      var rest := HeldIsLedTo(n.children[k].node, id);
      path := [k] + rest;
      assert path[1..] == rest;
    }
  }

  lemma HeldIsLed<T>(n: Node<T>, id: nat)
    ensures Holds(n, id) <==> IsLedTo(n, id)
  {
    if Holds(n, id) { var path := HeldIsLedTo(n, id); }
    if IsLedTo(n, id) {
      var path: seq<nat> :| LeadsTo(n, path, id);
      LeadingHolds(n, path, id);
    }
  }

  ghost predicate IsLedTo<T>(n: Node<T>, id: nat) { exists path: seq<nat> :: LeadsTo(n, path, id) }

  lemma {:induction false} FlatMapAppend<T>(f: T -> seq<T>, a: seq<T>, x: T)
    ensures FlatMap(f, a + [x]) == FlatMap(f, a) + f(x)
  {
    if a == [] {
      assert [x][1..] == [];
    } else {
      assert (a + [x])[1..] == a[1..] + [x];
      FlatMapAppend(f, a[1..], x);
    }
  }

  lemma {:induction false} GetsAllAppend<T>(n: Node<T>, a: seq<T>, b: seq<T>, id: nat)
    ensures GetsAll(n, a + b, id) == GetsAll(n, a, id) + GetsAll(n, b, id)
    decreases |b|
  {
    if b == [] {
      assert a + b == a;
    } else {
      var front := b[..|b| - 1];
      assert (a + b)[..|a + b| - 1] == a + front;
      GetsAllAppend(n, a, front, id);
    }
  }

  /** What comes through the one child that holds a receiver. */
  lemma {:induction false} ThroughHolder<T>(n: Node<T>, k: nat, items: seq<T>, id: nat)
    requires OnlyHolder(n, k, id)
    ensures GetsAll(n, items, id) == GetsAll(n.children[k].node, FlatMap(n.children[k].stack, items), id)
    decreases |items|
  {
    if items != [] {
      ThroughHolder(n, k, items[..|items| - 1], id);
      NextThroughHolder(n, k, items[..|items| - 1], items[|items| - 1], items, id);
    }
  }

  lemma NextThroughHolder<T>(n: Node<T>, k: nat, front: seq<T>, x: T, items: seq<T>, id: nat)
    requires OnlyHolder(n, k, id) && items == front + [x]
    requires GetsAll(n, front, id) == GetsAll(n.children[k].node, FlatMap(n.children[k].stack, front), id)
    ensures GetsAll(n, items, id) == GetsAll(n.children[k].node, FlatMap(n.children[k].stack, items), id)
  {
    var c := n.children[k];
    assert items[..|items| - 1] == front;
    ThroughOneChild(n, k, |n.children|, x, id);
    FlatMapAppend(c.stack, front, x);
    GetsAllAppend(c.node, FlatMap(c.stack, front), c.stack(x), id);
  }

  /** A receiver gets the items mapped by the stacks on the way to it, in order. */
  lemma {:induction false} ReceiverGetsMapped<T(!new)>(n: Node<T>, path: seq<nat>, items: seq<T>, id: nat)
    requires WellFormed(n) && LeadsTo(n, path, id)
    ensures GetsAll(n, items, id) == Mapped(n, path, items, id)
    decreases |path|
  {
    if path == [] {
      ReceiverGetsAll(n.id, n.cache, items);
    } else {
      var c := n.children[path[0]];
      LeadingHolds(c.node, path[1..], id);
      HolderIsOnly(n, path[0], id);
      ThroughHolder(n, path[0], items, id);
      ReceiverGetsMapped(c.node, path[1..], FlatMap(c.stack, items), id);
    }
  }

  /** Who gets anything, and what: the receivers some way leads to, the items mapped along it. */
  lemma WhoGetsWhat<T(!new)>(n: Node<T>, items: seq<T>, id: nat)
    requires WellFormed(n)
    ensures IsLedTo(n, id) <==> Holds(n, id)
    ensures forall path: seq<nat> | LeadsTo(n, path, id) :: GetsAll(n, items, id) == Mapped(n, path, items, id)
    ensures !Holds(n, id) ==> GetsAll(n, items, id) == []
  {
    HeldIsLed(n, id);
    forall path: seq<nat> | LeadsTo(n, path, id) ensures GetsAll(n, items, id) == Mapped(n, path, items, id) {
      ReceiverGetsMapped(n, path, items, id);
    }
    if !Holds(n, id) { NotHeldAll(n, items, id); }
  }

  // ---------------------------------------------------------------- whole files

  ghost predicate HoldsCache<T>(n: Node<T>, id: nat) {
    match n
    case Receiver(r, cache) => r == id && cache
    case Collapse(_, children) => exists k | 0 <= k < |children| :: HoldsCache(children[k].node, id)
  }

  lemma {:induction false} CacheIsHeld<T>(n: Node<T>, id: nat)
    requires HoldsCache(n, id)
    ensures Holds(n, id)
    decreases n
  {
    if n.Collapse? {
      var k :| 0 <= k < |n.children| && HoldsCache(n.children[k].node, id);
      CacheIsHeld(n.children[k].node, id);
    }
  }

  /** A cache replaces what it holds by the file, so it must hold nothing yet. */
  ghost predicate CachesEmpty<T>(n: Node<T>, got: map<nat, seq<T>>) {
    forall id: nat | HoldsCache(n, id) :: id in got && got[id] == []
  }

  /** What receiver `id` gets from those of the first `k` children that took the file. */
  ghost function FromFile<T>(n: Node<T>, k: nat, rejected: seq<nat>, file: seq<T>, id: nat): seq<T>
    requires n.Collapse? && k <= |n.children|
  {
    if k == 0 then [] else
      FromFile(n, k - 1, rejected, file, id)
        + (if k - 1 in rejected then [] else GetsAll(n.children[k - 1].node, file, id))
  }

  ghost predicate InRange(s: seq<nat>, k: nat) { forall i | 0 <= i < |s| :: s[i] < k }

  /** What receiver `id` gets when an item is pushed into the first `m` children that rejected the file. */
  ghost function FromItem<T>(n: Node<T>, m: nat, rejected: seq<nat>, x: T, id: nat): seq<T>
    requires n.Collapse? && m <= |rejected| && InRange(rejected, |n.children|)
  {
    if m == 0 then [] else
      var c := n.children[rejected[m - 1]];
      FromItem(n, m - 1, rejected, x, id) + GetsAll(c.node, c.stack(x), id)
  }

  ghost function FromItems<T>(n: Node<T>, rejected: seq<nat>, items: seq<T>, id: nat): seq<T>
    requires n.Collapse? && InRange(rejected, |n.children|)
  {
    if items == [] then [] else
      FromItems(n, rejected, items[..|items| - 1], id) + FromItem(n, |rejected|, rejected, items[|items| - 1], id)
  }

  lemma NextFromItems<T>(n: Node<T>, rejected: seq<nat>, items: seq<T>, i: nat)
    requires n.Collapse? && InRange(rejected, |n.children|) && i < |items|
    ensures forall id: nat :: FromItems(n, rejected, items[..i + 1], id)
                           == FromItems(n, rejected, items[..i], id) + FromItem(n, |rejected|, rejected, items[i], id)
  {
    assert items[..i + 1][..i] == items[..i];
  }

  ghost predicate Ascending(s: seq<nat>) { forall i, j | 0 <= i < j < |s| :: s[i] < s[j] }

  lemma {:induction false} FileThroughOne<T>(n: Node<T>, c: nat, k: nat, rejected: seq<nat>, file: seq<T>, id: nat)
    requires OnlyHolder(n, c, id) && k <= |n.children|
    ensures FromFile(n, k, rejected, file, id)
         == if c < k && c !in rejected then GetsAll(n.children[c].node, file, id) else []
    decreases k
  {
    if k > 0 {
      var j := k - 1;
      FileThroughOne(n, c, j, rejected, file, id);
      OthersGetNothing(n, c, j, file, id);
    }
  }

  lemma OthersGetNothing<T>(n: Node<T>, c: nat, j: nat, items: seq<T>, id: nat)
    requires OnlyHolder(n, c, id) && j < |n.children|
    ensures j != c ==> GetsAll(n.children[j].node, items, id) == []
  {
    if j != c { NotHeldAll(n.children[j].node, items, id); }
  }

  lemma {:induction false} ItemThroughOne<T>(n: Node<T>, c: nat, m: nat, rejected: seq<nat>, x: T, id: nat)
    requires OnlyHolder(n, c, id) && m <= |rejected|
    requires InRange(rejected, |n.children|) && Ascending(rejected)
    ensures FromItem(n, m, rejected, x, id)
         == if Listed(rejected, m, c) then GetsAll(n.children[c].node, n.children[c].stack(x), id) else []
    decreases m
  {
    if m > 0 {
      var j := rejected[m - 1];
      ItemThroughOne(n, c, m - 1, rejected, x, id);
      ListedOnce(rejected, m - 1);
      OthersGetNothing(n, c, j, n.children[j].stack(x), id);
    }
  }

  /** `c` is among the first `m` of the list. */
  ghost predicate Listed(s: seq<nat>, m: nat, c: nat)
    requires m <= |s|
  {
    m > 0 && (s[m - 1] == c || Listed(s, m - 1, c))
  }

  lemma {:induction false} ListedIsIn(s: seq<nat>, m: nat, c: nat)
    requires m <= |s|
    ensures Listed(s, m, c) <==> exists i | 0 <= i < m :: s[i] == c
  {
    if m > 0 { ListedIsIn(s, m - 1, c); }
  }

  lemma ListedOnce(s: seq<nat>, m: nat)
    requires m < |s| && Ascending(s)
    ensures !Listed(s, m, s[m])
  {
    ListedIsIn(s, m, s[m]);
  }

  lemma {:induction false} ItemsThroughOne<T>(n: Node<T>, c: nat, rejected: seq<nat>, items: seq<T>, id: nat)
    requires OnlyHolder(n, c, id)
    requires InRange(rejected, |n.children|) && Ascending(rejected)
    ensures FromItems(n, rejected, items, id) == if c in rejected then GetsAll(n, items, id) else []
    decreases |items|
  {
    if items != [] {
      var x := items[|items| - 1];
      ItemsThroughOne(n, c, rejected, items[..|items| - 1], id);
      ItemThroughOne(n, c, |rejected|, rejected, x, id);
      ListedIsIn(rejected, |rejected|, c);
      ThroughOneChild(n, c, |n.children|, x, id);
    }
  }

  lemma {:induction false} NothingPushed<T>(n: Node<T>, k: nat, rejected: seq<nat>, file: seq<T>, id: nat)
    requires n.Collapse? && !Holds(n, id) && k <= |n.children|
    ensures FromFile(n, k, rejected, file, id) == []
  {
    if k > 0 {
      NothingPushed(n, k - 1, rejected, file, id);
      NotHeldAll(n.children[k - 1].node, file, id);
    }
  }

  lemma {:induction false} NoItemPushed<T>(n: Node<T>, m: nat, rejected: seq<nat>, x: T, id: nat)
    requires n.Collapse? && !Holds(n, id) && m <= |rejected| && InRange(rejected, |n.children|)
    ensures FromItem(n, m, rejected, x, id) == []
  {
    if m > 0 {
      NoItemPushed(n, m - 1, rejected, x, id);
      var j := rejected[m - 1];
      NotHeldAll(n.children[j].node, n.children[j].stack(x), id);
    }
  }

  lemma {:induction false} NoItemsPushed<T>(n: Node<T>, rejected: seq<nat>, items: seq<T>, id: nat)
    requires n.Collapse? && !Holds(n, id) && InRange(rejected, |n.children|)
    ensures FromItems(n, rejected, items, id) == []
    decreases |items|
  {
    if items != [] {
      NoItemsPushed(n, rejected, items[..|items| - 1], id);
      NoItemPushed(n, |rejected|, rejected, items[|items| - 1], id);
    }
  }

  /** Pushing the file where it is taken and its items elsewhere gives everyone the items in order. */
  lemma FileIsItems<T(!new)>(n: Node<T>, rejected: seq<nat>, file: seq<T>, id: nat)
    requires n.Collapse? && WellFormed(n) && InRange(rejected, |n.children|) && Ascending(rejected)
    requires forall j: nat | j < |n.children| && j !in rejected :: n.children[j].stackEmpty
    ensures FromFile(n, |n.children|, rejected, file, id) + FromItems(n, rejected, file, id) == GetsAll(n, file, id)
  {
    if Holds(n, id) {
      var c: nat :| c < |n.children| && Holds(n.children[c].node, id);
      HolderIsOnly(n, c, id);
      assert StackRight(n.children[c]);
      FileThroughOne(n, c, |n.children|, rejected, file, id);
      ItemsThroughOne(n, c, rejected, file, id);
      if c !in rejected { ThroughEmptyStack(n, c, file, id); }
    } else {
      NothingPushed(n, |n.children|, rejected, file, id);
      NoItemsPushed(n, rejected, file, id);
      NotHeldAll(n, file, id);
    }
  }

  /** The children not yet offered the file keep their caches empty. */
  lemma CachesStayEmpty<T(!new)>(n: Node<T>, k: nat, j: nat, rejected: seq<nat>, file: seq<T>,
                                 before: map<nat, seq<T>>, now: map<nat, seq<T>>)
    requires n.Collapse? && WellFormed(n) && k <= j < |n.children| && CachesEmpty(n, before) && now.Keys == before.Keys
    requires forall id | id in now :: now[id] == before[id] + FromFile(n, k, rejected, file, id)
    ensures CachesEmpty(n.children[j].node, now)
  {
    forall id: nat | HoldsCache(n.children[j].node, id) ensures id in now && now[id] == [] {
      assert HoldsCache(n, id);
      CacheIsHeld(n.children[j].node, id);
      HolderIsOnly(n, j, id);
      FileThroughOne(n, j, k, rejected, file, id);
    }
  }

  // ---------------------------------------------------------------- the receivers

  /** Every receiver of the tree is there. */
  ghost predicate Present<T>(n: Node<T>, ids: set<nat>) { forall id: nat | Holds(n, id) :: id in ids }

  lemma ChildPresent<T>(n: Node<T>, ids: set<nat>, k: nat)
    requires n.Collapse? && k < |n.children| && Present(n, ids)
    ensures Present(n.children[k].node, ids)
  {
    forall id: nat | Holds(n.children[k].node, id) ensures id in ids { assert Holds(n, id); }
  }

  /** Every receiver has got what the items of a file give it, if the file was accepted, and nothing otherwise. */
  ghost predicate Took<T>(n: Node<T>, file: seq<T>, accepted: bool, before: map<nat, seq<T>>, got: map<nat, seq<T>>) {
    && got.Keys == before.Keys
    && forall id | id in got :: got[id] == before[id] + (if accepted then GetsAll(n, file, id) else [])
  }

  class Receivers<T(!new)> {
    /** What every receiver holds. */
    var got: map<nat, seq<T>>

    /** An item arrives at a node; Collapse nodes pass it to their children (PushItem). */
    method Push(n: Node<T>, x: T)
      requires Present(n, got.Keys)
      modifies this
      ensures got.Keys == old(got.Keys) && forall id | id in got :: got[id] == old(got)[id] + Gets(n, x, id)
      decreases n, 1, 0
    {
      if n.Receiver? {
        assert Holds(n, n.id);
        got := got[n.id := got[n.id] + [x]];
      } else {
        PushItem(n, x);
      }
    }

    method PushItem(n: Node<T>, x: T)
      requires n.Collapse? && Present(n, got.Keys)
      modifies this
      ensures got.Keys == old(got.Keys) && forall id | id in got :: got[id] == old(got)[id] + Gets(n, x, id)
      decreases n, 0, 0
    {
      for k := 0 to |n.children|
        invariant got.Keys == old(got.Keys) && forall id | id in got :: got[id] == old(got)[id] + GetsFirst(n, k, x, id)
      {
        ChildPresent(n, got.Keys, k);
        PushAll(n.children[k].node, n.children[k].stack(x));
      }
    }

    /** What comes out of a function stack arrives at a node, item by item. */
    method PushAll(n: Node<T>, items: seq<T>)
      requires Present(n, got.Keys)
      modifies this
      ensures got.Keys == old(got.Keys) && forall id | id in got :: got[id] == old(got)[id] + GetsAll(n, items, id)
      decreases n, 2, |items|
    {
      for k := 0 to |items|
        invariant got.Keys == old(got.Keys)
               && forall id | id in got :: got[id] == old(got)[id] + GetsAll(n, items[..k], id)
      {
        NextItem(n, items, k);
        Push(n, items[k]);
      }
      assert items[..|items|] == items;
    }

    /** OnPreOpFile: caches and Collapse nodes take the file, behind an empty stack. */
    method OnPreOpFile(c: Child<T>, file: seq<T>) returns (accepted: bool)
      requires WellFormed(c.node) && Present(c.node, got.Keys) && CachesEmpty(c.node, got)
      modifies this
      ensures accepted <==> c.stackEmpty && (c.node.Collapse? || c.node.cache)
      ensures Took(c.node, file, accepted, old(got), got)
      decreases c.node, 2, 0
    {
      if !c.stackEmpty || (c.node.Receiver? && !c.node.cache) { return false; }
      if c.node.Receiver? {
        TakesFile(c.node, file);
        got := got[c.node.id := file];
      } else {
        PushFile(c.node, file);
      }
      accepted := true;
    }

    /** PushFile gives every receiver exactly what pushing the items one by one gives it. */
    method PushFile(n: Node<T>, file: seq<T>)
      requires n.Collapse? && WellFormed(n) && Present(n, got.Keys) && CachesEmpty(n, got)
      modifies this
      ensures got.Keys == old(got.Keys) && forall id | id in got :: got[id] == old(got)[id] + GetsAll(n, file, id)
      decreases n, 1, 0
    {
      var rejected := OfferFile(n, file);
      ghost var offered := got;
      PushRest(n, rejected, file);
      BothWays(n, rejected, file, old(got), offered, got);
    }

    /** The first loop of PushFile: every child is offered the file. */
    method OfferFile(n: Node<T>, file: seq<T>) returns (rejected: seq<nat>)
      requires n.Collapse? && WellFormed(n) && Present(n, got.Keys) && CachesEmpty(n, got)
      modifies this
      ensures Offered(n, |n.children|, rejected, file, old(got), got)
      decreases n, 0, 1
    {
      rejected := [];
      NothingOffered(n, file, got);
      for k := 0 to |n.children|
        invariant Offered(n, k, rejected, file, old(got), got)
      {
        rejected := OfferChild(n, k, rejected, file, old(got));
      }
    }

    /** One turn of that loop. */
    method OfferChild(n: Node<T>, k: nat, rejected: seq<nat>, file: seq<T>, ghost old': map<nat, seq<T>>)
      returns (later: seq<nat>)
      requires n.Collapse? && WellFormed(n) && Present(n, old'.Keys) && CachesEmpty(n, old')
      requires k < |n.children| && Offered(n, k, rejected, file, old', got)
      modifies this
      ensures Offered(n, k + 1, later, file, old', got)
      decreases n, 0, 0
    {
      NextCanTake(n, k, rejected, file, old', got);
      ghost var before := got;
      var accepted := OnPreOpFile(n.children[k], file);
      NextOffered(n, k, rejected, accepted, file, old', before, got);
      later := if accepted then rejected else rejected + [k];
    }

    /** The second loop of PushFile: the items go to every child that rejected the file. */
    method PushRest(n: Node<T>, rejected: seq<nat>, file: seq<T>)
      requires n.Collapse? && Present(n, got.Keys) && InRange(rejected, |n.children|)
      modifies this
      ensures got.Keys == old(got.Keys)
      ensures forall id | id in got :: got[id] == old(got)[id] + FromItems(n, rejected, file, id)
      decreases n, 0, 1
    {
      for i := 0 to |file|
        invariant got.Keys == old(got.Keys)
        invariant forall id | id in got :: got[id] == old(got)[id] + FromItems(n, rejected, file[..i], id)
      {
        PushOne(n, rejected, file[i]);
        NextFromItems(n, rejected, file, i);
      }
      assert file[..|file|] == file;
    }

    method PushOne(n: Node<T>, rejected: seq<nat>, x: T)
      requires n.Collapse? && Present(n, got.Keys) && InRange(rejected, |n.children|)
      modifies this
      ensures got.Keys == old(got.Keys)
      ensures forall id | id in got :: got[id] == old(got)[id] + FromItem(n, |rejected|, rejected, x, id)
      decreases n, 0, 0
    {
      for m := 0 to |rejected|
        invariant got.Keys == old(got.Keys)
        invariant forall id | id in got :: got[id] == old(got)[id] + FromItem(n, m, rejected, x, id)
      {
        ChildPresent(n, got.Keys, rejected[m]);
        PushAll(n.children[rejected[m]].node, n.children[rejected[m]].stack(x));
      }
    }
  }

  /** The first `k` children have been offered the file. */
  ghost predicate Offered<T>(n: Node<T>, k: nat, rejected: seq<nat>, file: seq<T>, old': map<nat, seq<T>>,
                             got: map<nat, seq<T>>)
    requires n.Collapse? && k <= |n.children|
  {
    && got.Keys == old'.Keys && Ascending(rejected) && InRange(rejected, k)
    && (forall j: nat | j < k && j !in rejected :: n.children[j].stackEmpty)
    && forall id | id in got :: got[id] == old'[id] + FromFile(n, k, rejected, file, id)
  }

  lemma NothingOffered<T>(n: Node<T>, file: seq<T>, got: map<nat, seq<T>>)
    requires n.Collapse?
    ensures Offered(n, 0, [], file, got, got)
  {
  }

  /** The next child can be offered the file. */
  lemma NextCanTake<T(!new)>(n: Node<T>, k: nat, rejected: seq<nat>, file: seq<T>, old': map<nat, seq<T>>,
                             got: map<nat, seq<T>>)
    requires n.Collapse? && WellFormed(n) && Present(n, old'.Keys) && CachesEmpty(n, old')
    requires k < |n.children| && Offered(n, k, rejected, file, old', got)
    ensures var c := n.children[k].node; WellFormed(c) && Present(c, got.Keys) && CachesEmpty(c, got)
  {
    ChildPresent(n, got.Keys, k);
    CachesStayEmpty(n, k, k, rejected, file, old', got);
  }

  lemma NextOffered<T>(n: Node<T>, k: nat, rejected: seq<nat>, accepted: bool, file: seq<T>, old': map<nat, seq<T>>,
                       before: map<nat, seq<T>>, got: map<nat, seq<T>>)
    requires n.Collapse? && k < |n.children| && Offered(n, k, rejected, file, old', before)
    requires accepted ==> n.children[k].stackEmpty
    requires Took(n.children[k].node, file, accepted, before, got)
    ensures Offered(n, k + 1, if accepted then rejected else rejected + [k], file, old', got)
  {
    var later := if accepted then rejected else rejected + [k];
    assert k !in rejected;
    forall id | id in got ensures got[id] == old'[id] + FromFile(n, k + 1, later, file, id) {
      NextFromFile(n, k, rejected, later, accepted, file, id);
      Regroup(old'[id], FromFile(n, k, rejected, file, id),
              if accepted then GetsAll(n.children[k].node, file, id) else [],
              FromFile(n, k + 1, later, file, id));
    }
  }

  lemma NextFromFile<T>(n: Node<T>, k: nat, rejected: seq<nat>, later: seq<nat>, accepted: bool, file: seq<T>, id: nat)
    requires n.Collapse? && k < |n.children| && InRange(rejected, k)
          && later == if accepted then rejected else rejected + [k]
    ensures FromFile(n, k + 1, later, file, id)
         == FromFile(n, k, rejected, file, id) + (if accepted then GetsAll(n.children[k].node, file, id) else [])
  {
    forall j: nat | j < k ensures j in rejected <==> j in later { }
    LaterRejection(n, k, rejected, later, file, id);
  }

  lemma BothWays<T(!new)>(n: Node<T>, rejected: seq<nat>, file: seq<T>, old': map<nat, seq<T>>,
                          offered: map<nat, seq<T>>, got: map<nat, seq<T>>)
    requires n.Collapse? && WellFormed(n) && Offered(n, |n.children|, rejected, file, old', offered)
          && got.Keys == offered.Keys
    requires forall id | id in got :: got[id] == offered[id] + FromItems(n, rejected, file, id)
    ensures forall id | id in got :: got[id] == old'[id] + GetsAll(n, file, id)
  {
    forall id | id in got ensures got[id] == old'[id] + GetsAll(n, file, id) {
      FileIsItems(n, rejected, file, id);
      Regroup(old'[id], FromFile(n, |n.children|, rejected, file, id), FromItems(n, rejected, file, id),
              GetsAll(n, file, id));
    }
  }

  lemma Regroup<T>(a: seq<T>, b: seq<T>, c: seq<T>, d: seq<T>)
    requires b + c == d
    ensures a + b + c == a + d
  {
  }

  lemma TakesFile<T>(n: Node<T>, file: seq<T>)
    requires n == Receiver(n.id, true)
    ensures Holds(n, n.id) && HoldsCache(n, n.id) && GetsAll(n, file, n.id) == file
    ensures forall id: nat | id != n.id :: GetsAll(n, file, id) == []
  {
    FileIntoCache(n.id, file);
    forall id: nat | id != n.id ensures GetsAll(n, file, id) == [] { NotHeldAll(n, file, id); }
  }

  lemma {:induction false} LaterRejection<T>(n: Node<T>, k: nat, a: seq<nat>, b: seq<nat>, file: seq<T>, id: nat)
    requires n.Collapse? && k <= |n.children| && forall j: nat | j < k :: j in a <==> j in b
    ensures FromFile(n, k, a, file, id) == FromFile(n, k, b, file, id)
  {
    if k > 0 { LaterRejection(n, k - 1, a, b, file, id); }
  }

  // ---------------------------------------------------------------- the targets of a stage

  /** The nodes an item pushed into the children of `n` comes through or arrives at. */
  ghost function Traversed<T>(n: Node<T>): multiset<nat>
    decreases n, 1, 0
  {
    if n.Receiver? then multiset{} else TraversedFirst(n, |n.children|)
  }

  ghost function TraversedFirst<T>(n: Node<T>, k: nat): multiset<nat>
    requires n.Collapse? && k <= |n.children|
    decreases n, 0, k
  {
    if k == 0 then multiset{} else
      TraversedFirst(n, k - 1) + multiset{n.children[k - 1].node.id} + Traversed(n.children[k - 1].node)
  }

  /** The same for a list of nodes, with the nodes themselves. */
  ghost function AllTraversed<T>(s: seq<Node<T>>): multiset<nat> {
    if s == [] then multiset{} else
      AllTraversed(s[..|s| - 1]) + multiset{s[|s| - 1].id} + Traversed(s[|s| - 1])
  }

  function Nodes<T>(n: Node<T>, k: nat): (r: seq<Node<T>>)
    requires n.Collapse? && k <= |n.children|
    ensures |r| == k
  {
    seq(k, i requires 0 <= i < k => n.children[i].node)
  }

  function Reverse<T>(s: seq<T>): seq<T> { if s == [] then [] else [s[|s| - 1]] + Reverse(s[..|s| - 1]) }

  ghost function Size<T>(n: Node<T>): nat
    decreases n, 1, 0
  {
    if n.Receiver? then 1 else 1 + SizeFirst(n, |n.children|)
  }

  ghost function SizeFirst<T>(n: Node<T>, k: nat): nat
    requires n.Collapse? && k <= |n.children|
    decreases n, 0, k
  {
    if k == 0 then 0 else SizeFirst(n, k - 1) + Size(n.children[k - 1].node)
  }

  ghost function TotalSize<T>(s: seq<Node<T>>): nat {
    if s == [] then 0 else TotalSize(s[..|s| - 1]) + Size(s[|s| - 1])
  }

  lemma {:induction false} AppendNodes<T>(a: seq<Node<T>>, b: seq<Node<T>>)
    ensures AllTraversed(a + b) == AllTraversed(a) + AllTraversed(b) && TotalSize(a + b) == TotalSize(a) + TotalSize(b)
    decreases |b|
  {
    if b == [] {
      assert a + b == a;
    } else {
      assert (a + b)[..|a + b| - 1] == a + b[..|b| - 1];
      AppendNodes(a, b[..|b| - 1]);
    }
  }

  lemma OneNode<T>(x: Node<T>)
    ensures AllTraversed([x]) == multiset{x.id} + Traversed(x)
  {
    assert [x][..0] == [];
  }

  lemma {:induction false} ReverseNodes<T>(s: seq<Node<T>>)
    ensures AllTraversed(Reverse(s)) == AllTraversed(s)
  {
    if s != [] {
      var last := s[|s| - 1];
      ReverseNodes(s[..|s| - 1]);
      AppendNodes([last], Reverse(s[..|s| - 1]));
      OneNode(last);
    }
  }

  lemma {:induction false} NodesTraversed<T>(n: Node<T>, k: nat)
    requires n.Collapse? && k <= |n.children|
    ensures AllTraversed(Nodes(n, k)) == TraversedFirst(n, k) && TotalSize(Nodes(n, k)) == SizeFirst(n, k)
    decreases k
  {
    if k > 0 {
      var j := k - 1;
      NodesTraversed(n, j);
      assert Nodes(n, k)[..j] == Nodes(n, j) && Nodes(n, k)[j] == n.children[j].node;
    }
  }

  lemma PushedChildren<T>(stack: seq<Node<T>>, child: Node<T>)
    requires child.Collapse?
    ensures AllTraversed(stack + Nodes(child, |child.children|)) == AllTraversed(stack) + Traversed(child)
    ensures TotalSize(stack + Nodes(child, |child.children|)) + 1 == TotalSize(stack) + Size(child)
  {
    AppendNodes(stack, Nodes(child, |child.children|));
    NodesTraversed(child, |child.children|);
  }

  /** The stack after its last node has been taken off, and the children of a Collapse node put on. */
  ghost function NextStack<T>(stack: seq<Node<T>>): seq<Node<T>>
    requires stack != []
  {
    var rest, child := stack[..|stack| - 1], stack[|stack| - 1];
    if child.Collapse? then rest + Nodes(child, |child.children|) else rest
  }

  lemma NextStackRight<T>(stack: seq<Node<T>>)
    requires stack != []
    ensures AllTraversed(stack) == AllTraversed(NextStack(stack)) + multiset{stack[|stack| - 1].id}
    ensures TotalSize(NextStack(stack)) < TotalSize(stack)
  {
    var rest, child := stack[..|stack| - 1], stack[|stack| - 1];
    if child.Collapse? { PushedChildren(rest, child); }
  }

  /** Stage::Targets lists, each as often as it is reached, the nodes a push of the stage goes through. */
  method Targets<T>(n: Node<T>) returns (targets: seq<nat>)
    requires n.Collapse?
    ensures multiset(targets) == Traversed(n)
  {
    var stack := Reverse(Nodes(n, |n.children|));
    targets := [];
    NodesTraversed(n, |n.children|);
    ReverseNodes(Nodes(n, |n.children|));
    while stack != []
      invariant multiset(targets) + AllTraversed(stack) == Traversed(n)
      decreases TotalSize(stack)
    {
      NextStackRight(stack);
      var child := stack[|stack| - 1];
      stack := stack[..|stack| - 1];
      if child.Collapse? { stack := stack + Nodes(child, |child.children|); }
      assert multiset(targets + [child.id]) == multiset(targets) + multiset{child.id};
      targets := targets + [child.id];
    }
  }

  /** There is one target for every node below `n`. */
  lemma {:induction false} TargetsCountNodes<T>(n: Node<T>)
    ensures |Traversed(n)| + 1 == Size(n)
    decreases n, 1, 0
  {
    if n.Collapse? { FirstTargets(n, |n.children|); }
  }

  lemma {:induction false} FirstTargets<T>(n: Node<T>, k: nat)
    requires n.Collapse? && k <= |n.children|
    ensures |TraversedFirst(n, k)| == SizeFirst(n, k)
    decreases n, 0, k
  {
    if k > 0 {
      FirstTargets(n, k - 1);
      TargetsCountNodes(n.children[k - 1].node);
    }
  }

  /** A Collapse node below `n`. */
  ghost predicate HasCollapse<T>(n: Node<T>, id: nat) {
    n.Collapse? && exists k | 0 <= k < |n.children| ::
      (n.children[k].node.Collapse? && n.children[k].node.id == id) || HasCollapse(n.children[k].node, id)
  }

  /** The targets are exactly the receivers that get items and the Collapse nodes they come through. */
  lemma {:induction false} TargetsAreReached<T>(n: Node<T>, id: nat)
    requires n.Collapse?
    ensures id in Traversed(n) <==> Holds(n, id) || HasCollapse(n, id)
    decreases n
  {
    TraversedThrough(n, |n.children|, id);
    forall k | 0 <= k < |n.children| && n.children[k].node.Collapse?
      ensures id in Traversed(n.children[k].node)
           <==> Holds(n.children[k].node, id) || HasCollapse(n.children[k].node, id) {
      TargetsAreReached(n.children[k].node, id);
    }
    forall k | 0 <= k < |n.children|
      ensures ThroughChild(n, k, id) <==>
              Holds(n.children[k].node, id) || (n.children[k].node.Collapse? && n.children[k].node.id == id)
              || HasCollapse(n.children[k].node, id) {
    }
  }

  ghost predicate ThroughChild<T>(n: Node<T>, k: int, id: nat)
    requires n.Collapse? && 0 <= k < |n.children|
  {
    n.children[k].node.id == id || id in Traversed(n.children[k].node)
  }

  lemma TraversedNext<T>(n: Node<T>, j: nat, m: nat, id: nat)
    requires n.Collapse? && m == j + 1 <= |n.children|
    ensures id in TraversedFirst(n, m) <==> id in TraversedFirst(n, j) || ThroughChild(n, j, id)
  {
    InSum(TraversedFirst(n, j), n.children[j].node.id, Traversed(n.children[j].node), id);
  }

  lemma InSum(a: multiset<nat>, x: nat, b: multiset<nat>, y: nat)
    ensures y in a + multiset{x} + b <==> y in a || y == x || y in b
  {
  }

  lemma {:induction false} TraversedThrough<T>(n: Node<T>, m: nat, id: nat)
    requires n.Collapse? && m <= |n.children|
    ensures id in TraversedFirst(n, m) <==> exists k | 0 <= k < m :: ThroughChild(n, k, id)
    decreases m
  {
    if m > 0 {
      var j := m - 1;
      TraversedThrough(n, j, id);
      TraversedNext(n, j, m, id);
    }
  }
}
