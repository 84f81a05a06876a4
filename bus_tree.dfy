/**
 * The bus hierarchy as an arena: bus `i` is the i-th bus created, so a bus's
 * parent always has a smaller index than the bus itself. This module holds the
 * per-bus state, the tree invariant, and the three traversal orders the
 * publishers use (ancestor chain, breadth-first subtree, one level of children).
 */
module BusTree {
  import opened Wrappers
  import opened Topics
  import opened Registry

  /** A bus, named by its position in creation order. */
  type BusId = nat

  /** An exception handler object, opaque to the bus. */
  datatype HandlerRef = HandlerRef(id: nat)

  /** The four invocation-handler classes a publisher proxy can be backed by. */
  datatype Strategy =
    | LocalPublisher             // MessagePublisher (NONE)
    | ToChildrenPublisher        // ToChildrenMessagePublisher
    | ToParentPublisher          // ToParentMessagePublisher
    | ToDirectChildrenPublisher  // ToDirectChildrenMessagePublisher

  /** The direction each handler class implements. */
  function ServedDirection(s: Strategy): BroadcastDirection
  {
    match s
    case LocalPublisher => NoBroadcast
    case ToChildrenPublisher => ToChildren
    case ToParentPublisher => ToParent
    case ToDirectChildrenPublisher => ToDirectChildren
  }

  /**
   * `createPublisher`'s choice of handler: tested in the order TO_CHILDREN,
   * TO_PARENT, TO_DIRECT_CHILDREN, with the local publisher as the fallback.
   */
  function StrategyFor(d: BroadcastDirection): (s: Strategy)
    ensures ServedDirection(s) == d
  {
    if d == ToChildren then ToChildrenPublisher
    else if d == ToParent then ToParentPublisher
    else if d == ToDirectChildren then ToDirectChildrenPublisher
    else
      assert d == NoBroadcast;
      LocalPublisher
  }

  /** A publisher proxy: bound for life to one bus, one topic and one handler class. */
  class Publisher {
    const bus: BusId
    const topic: Topic
    const strategy: Strategy

    constructor (bus: BusId, topic: Topic, strategy: Strategy)
      ensures this.bus == bus && this.topic == topic && this.strategy == strategy
    {
      this.bus := bus;
      this.topic := topic;
      this.strategy := strategy;
    }
  }

  /** The fields of one bus. `parent` never changes after creation. */
  datatype Node = Node(
    parent: Option<BusId>,
    children: seq<BusId>,
    subscribers: SubscriberMap,
    publishers: map<Topic, Publisher>,
    exceptionHandler: Option<HandlerRef>)

  /** The state of a bus right after construction. */
  function NewNode(parent: Option<BusId>): (n: Node)
    ensures n.parent == parent && n.children == [] && n.subscribers == map[]
    ensures n.publishers == map[] && n.exceptionHandler.None?
  {
    Node(parent, [], map[], map[], None)
  }

  /**
   * The tree invariant kept by construction: a parent is older than its child
   * and lists it; each child list holds exactly the buses naming that parent,
   * in creation order.
   */
  predicate TreeShaped(nodes: seq<Node>)
  {
    && (forall i :: 0 <= i < |nodes| && nodes[i].parent.Some? ==>
          nodes[i].parent.value < i && i in nodes[nodes[i].parent.value].children)
    && (forall i, k :: 0 <= i < |nodes| && 0 <= k < |nodes[i].children| ==>
          nodes[i].children[k] < |nodes| && nodes[nodes[i].children[k]].parent == Some(i))
    && (forall i, k, l :: 0 <= i < |nodes| && 0 <= k < l < |nodes[i].children| ==>
          nodes[i].children[k] < nodes[i].children[l])
  }

  /** Every publisher in `n`'s cache belongs to bus `i` and its own topic, and serves the topic's direction. */
  predicate CacheOwnedBy(n: Node, i: int)
  {
    forall t :: t in n.publishers ==>
      && n.publishers[t].bus == i
      && n.publishers[t].topic == t
      && n.publishers[t].strategy == StrategyFor(t.broadcastDirection)
  }

  /** Every bus's publisher cache is owned by that bus. */
  predicate PublishersCached(nodes: seq<Node>)
  {
    forall i :: 0 <= i < |nodes| ==> CacheOwnedBy(nodes[i], i)
  }

  predicate WellFormed(nodes: seq<Node>)
  {
    TreeShaped(nodes) && PublishersCached(nodes)
  }

  /** The subscribers `b` has for `topic`; an absent list reads as empty. */
  function ListAt(nodes: seq<Node>, b: BusId, topic: Topic): (list: seq<Subscriber>)
    ensures b < |nodes| ==> list == Lookup(nodes[b].subscribers, topic)
    ensures b >= |nodes| ==> list == []
  {
    if b < |nodes| then Lookup(nodes[b].subscribers, topic) else []
  }

  // ---------------------------------------------------------------------------
  // Ancestry

  /** `a` is `d` itself or one of its ancestors. */
  predicate InSubtree(nodes: seq<Node>, a: BusId, d: BusId)
    requires TreeShaped(nodes) && d < |nodes|
    decreases d
  {
    d == a || (nodes[d].parent.Some? && InSubtree(nodes, a, nodes[d].parent.value))
  }

  /** An ancestor is never younger than its descendant. */
  lemma {:induction false} InSubtreeOrdered(nodes: seq<Node>, a: BusId, d: BusId)
    requires TreeShaped(nodes) && d < |nodes| && InSubtree(nodes, a, d)
    ensures a <= d
    decreases d
  {
    if d != a {
      InSubtreeOrdered(nodes, a, nodes[d].parent.value);
    }
  }

  /** A bus whose parent is `q` carries its whole subtree into `q`'s. */
  lemma {:induction false} InSubtreeViaChild(nodes: seq<Node>, q: BusId, c: BusId, d: BusId)
    requires TreeShaped(nodes) && c < |nodes| && d < |nodes|
    requires nodes[c].parent == Some(q) && InSubtree(nodes, c, d)
    ensures InSubtree(nodes, q, d)
    decreases d
  {
    if d != c {
      InSubtreeViaChild(nodes, q, c, nodes[d].parent.value);
    }
  }

  /** A proper descendant of `q` lies below exactly one child of `q` (existence half). */
  lemma {:induction false} DescendantBelowChild(nodes: seq<Node>, q: BusId, d: BusId) returns (c: BusId)
    requires TreeShaped(nodes) && q < |nodes| && d < |nodes|
    requires d != q && InSubtree(nodes, q, d)
    ensures c in nodes[q].children && InSubtree(nodes, c, d)
    decreases d
  {
    var p := nodes[d].parent.value;
    if p == q {
      c := d;
    } else {
      c := DescendantBelowChild(nodes, q, p);
      assert c < |nodes| by {
        var k :| 0 <= k < |nodes[q].children| && nodes[q].children[k] == c;
      }
    }
  }

  /** Two ancestors of the same bus are ancestor and descendant of each other. */
  lemma {:induction false} AncestorsComparable(nodes: seq<Node>, a1: BusId, a2: BusId, d: BusId)
    requires TreeShaped(nodes) && d < |nodes|
    requires InSubtree(nodes, a1, d) && InSubtree(nodes, a2, d)
    ensures (a2 < |nodes| && InSubtree(nodes, a1, a2)) || (a1 < |nodes| && InSubtree(nodes, a2, a1))
    decreases d
  {
    if d != a1 && d != a2 {
      AncestorsComparable(nodes, a1, a2, nodes[d].parent.value);
    }
  }

  /** At most one child of `q` is an ancestor of a given bus. */
  lemma ChildCoverUnique(nodes: seq<Node>, q: BusId, c1: BusId, c2: BusId, d: BusId)
    requires TreeShaped(nodes) && q < |nodes| && d < |nodes|
    requires c1 in nodes[q].children && c2 in nodes[q].children
    requires InSubtree(nodes, c1, d) && InSubtree(nodes, c2, d)
    ensures c1 == c2
  {
    var k1 :| 0 <= k1 < |nodes[q].children| && nodes[q].children[k1] == c1;
    var k2 :| 0 <= k2 < |nodes[q].children| && nodes[q].children[k2] == c2;
    AncestorsComparable(nodes, c1, c2, d);
    if c1 != c2 {
      if c2 < |nodes| && InSubtree(nodes, c1, c2) {
        InSubtreeOrdered(nodes, c1, q);
      } else {
        InSubtreeOrdered(nodes, c2, q);
      }
    }
  }

  // ---------------------------------------------------------------------------
  // TO_PARENT order: the bus, its parent, ..., the root

  function AncestorChain(nodes: seq<Node>, b: BusId): (chain: seq<BusId>)
    requires TreeShaped(nodes) && b < |nodes|
    ensures chain != [] && chain[0] == b
    ensures forall k :: 0 <= k < |chain| ==> chain[k] < |nodes| && chain[k] <= b
    ensures forall k, l :: 0 <= k < l < |chain| ==> chain[k] > chain[l]
    decreases b
  {
    if nodes[b].parent.None? then [b]
    else [b] + AncestorChain(nodes, nodes[b].parent.value)
  }

  /** The chain ends at the root: its last bus has no parent. */
  lemma {:induction false} AncestorChainReachesRoot(nodes: seq<Node>, b: BusId)
    requires TreeShaped(nodes) && b < |nodes|
    ensures nodes[AncestorChain(nodes, b)[|AncestorChain(nodes, b)| - 1]].parent.None?
    decreases b
  {
    if nodes[b].parent.Some? {
      var p := nodes[b].parent.value;
      AncestorChainReachesRoot(nodes, p);
      var up := AncestorChain(nodes, p);
      assert AncestorChain(nodes, b) == [b] + up;
      assert ([b] + up)[|up|] == up[|up| - 1];
    }
  }

  /** The chain holds exactly the bus and its ancestors. */
  lemma {:induction false} AncestorChainExact(nodes: seq<Node>, b: BusId, a: BusId)
    requires TreeShaped(nodes) && b < |nodes|
    ensures a in AncestorChain(nodes, b) <==> InSubtree(nodes, a, b)
    decreases b
  {
    if nodes[b].parent.Some? {
      AncestorChainExact(nodes, nodes[b].parent.value, a);
    }
  }

  // ---------------------------------------------------------------------------
  // TO_CHILDREN order: breadth-first from the bus

  /** Number of buses in the subtree rooted at `b`. */
  function SubtreeSize(nodes: seq<Node>, b: BusId): (n: nat)
    requires TreeShaped(nodes) && b < |nodes|
    ensures n >= 1
    decreases |nodes| - b, 1
  {
    1 + ChildrenSize(nodes, b, 0)
  }

  /** Total subtree size of `b`'s children from position `k` on. */
  function ChildrenSize(nodes: seq<Node>, b: BusId, k: nat): nat
    requires TreeShaped(nodes) && b < |nodes| && k <= |nodes[b].children|
    decreases |nodes| - b, 0, |nodes[b].children| - k
  {
    if k == |nodes[b].children| then 0
    else SubtreeSize(nodes, nodes[b].children[k]) + ChildrenSize(nodes, b, k + 1)
  }

  predicate AllBuses(nodes: seq<Node>, queue: seq<BusId>)
  {
    forall k :: 0 <= k < |queue| ==> queue[k] < |nodes|
  }

  /** Total subtree size of the buses in a queue: what is left for a traversal to visit. */
  function Weight(nodes: seq<Node>, queue: seq<BusId>): nat
    requires TreeShaped(nodes) && AllBuses(nodes, queue)
  {
    if queue == [] then 0 else SubtreeSize(nodes, queue[0]) + Weight(nodes, queue[1..])
  }

  lemma {:induction false} WeightAppend(nodes: seq<Node>, a: seq<BusId>, b: seq<BusId>)
    requires TreeShaped(nodes) && AllBuses(nodes, a) && AllBuses(nodes, b)
    ensures Weight(nodes, a + b) == Weight(nodes, a) + Weight(nodes, b)
  {
    if a != [] {
      assert (a + b)[1..] == a[1..] + b;
      assert (a + b)[0] == a[0];
      WeightAppend(nodes, a[1..], b);
    } else {
      assert a + b == b;
    }
  }

  lemma {:induction false} WeightOfChildren(nodes: seq<Node>, b: BusId, k: nat)
    requires TreeShaped(nodes) && b < |nodes| && k <= |nodes[b].children|
    ensures AllBuses(nodes, nodes[b].children[k..])
    ensures Weight(nodes, nodes[b].children[k..]) == ChildrenSize(nodes, b, k)
    decreases |nodes[b].children| - k
  {
    if k < |nodes[b].children| {
      WeightOfChildren(nodes, b, k + 1);
      assert nodes[b].children[k..][1..] == nodes[b].children[k + 1..];
    }
  }

  /**
   * The visiting order of a queue-driven breadth-first traversal: take the head,
   * enqueue its children at the back, continue.
   */
  function Bfs(nodes: seq<Node>, queue: seq<BusId>): (order: seq<BusId>)
    requires TreeShaped(nodes) && AllBuses(nodes, queue)
    ensures AllBuses(nodes, order)
    decreases Weight(nodes, queue)
  {
    if queue == [] then []
    else
      var b := queue[0];
      var next := queue[1..] + nodes[b].children;
      WeightOfChildren(nodes, b, 0);
      assert nodes[b].children[0..] == nodes[b].children;
      WeightAppend(nodes, queue[1..], nodes[b].children);
      [b] + Bfs(nodes, next)
  }

  /** One step of the traversal: the head is visited, its children join the back of the queue. */
  lemma BfsUnfold(nodes: seq<Node>, queue: seq<BusId>)
    requires TreeShaped(nodes) && AllBuses(nodes, queue) && queue != []
    ensures AllBuses(nodes, queue[1..] + nodes[queue[0]].children)
    ensures Weight(nodes, queue[1..] + nodes[queue[0]].children) < Weight(nodes, queue)
    ensures Bfs(nodes, queue) == [queue[0]] + Bfs(nodes, queue[1..] + nodes[queue[0]].children)
  {
    var b := queue[0];
    WeightOfChildren(nodes, b, 0);
    assert nodes[b].children[0..] == nodes[b].children;
    WeightAppend(nodes, queue[1..], nodes[b].children);
  }

  /** Fields other than parent, children and the publisher cache do not affect well-formedness. */
  lemma SameShape(before: seq<Node>, after: seq<Node>)
    requires WellFormed(before) && |after| == |before|
    requires forall i :: 0 <= i < |before| ==>
      after[i].parent == before[i].parent && after[i].children == before[i].children
      && after[i].publishers == before[i].publishers
    ensures WellFormed(after)
  {
    forall i | 0 <= i < |after|
      ensures CacheOwnedBy(after[i], i)
    {
      assert CacheOwnedBy(before[i], i);
    }
  }

  /** Caching a publisher made for bus `b` and `topic` keeps the arena well formed. */
  lemma CacheKeepsShape(before: seq<Node>, b: BusId, topic: Topic, p: Publisher)
    requires WellFormed(before) && b < |before|
    requires p.bus == b && p.topic == topic && p.strategy == StrategyFor(topic.broadcastDirection)
    ensures WellFormed(before[b := before[b].(publishers := before[b].publishers[topic := p])])
  {
    var after := before[b := before[b].(publishers := before[b].publishers[topic := p])];
    assert CacheOwnedBy(before[b], b);
    assert CacheOwnedBy(after[b], b);
    forall i | 0 <= i < |after|
      ensures CacheOwnedBy(after[i], i)
    {
      if i != b {
        assert CacheOwnedBy(before[i], i);
      }
    }
  }

  /** How many buses of `queue` are `d` or an ancestor of `d`. */
  function CountCovering(nodes: seq<Node>, queue: seq<BusId>, d: BusId): nat
    requires TreeShaped(nodes) && d < |nodes|
  {
    if queue == [] then 0
    else (if InSubtree(nodes, queue[0], d) then 1 else 0) + CountCovering(nodes, queue[1..], d)
  }

  lemma {:induction false} CountCoveringAppend(nodes: seq<Node>, a: seq<BusId>, b: seq<BusId>, d: BusId)
    requires TreeShaped(nodes) && d < |nodes|
    ensures CountCovering(nodes, a + b, d) == CountCovering(nodes, a, d) + CountCovering(nodes, b, d)
  {
    if a != [] {
      assert (a + b)[1..] == a[1..] + b;
      assert (a + b)[0] == a[0];
      CountCoveringAppend(nodes, a[1..], b, d);
    } else {
      assert a + b == b;
    }
  }

  lemma {:induction false} CountCoveringNone(nodes: seq<Node>, cs: seq<BusId>, d: BusId)
    requires TreeShaped(nodes) && d < |nodes|
    requires forall c :: c in cs ==> !InSubtree(nodes, c, d)
    ensures CountCovering(nodes, cs, d) == 0
  {
    if cs != [] {
      CountCoveringNone(nodes, cs[1..], d);
    }
  }

  /** A strictly increasing list with a single covering element counts it once. */
  lemma {:induction false} CountCoveringOne(nodes: seq<Node>, cs: seq<BusId>, c: BusId, d: BusId)
    requires TreeShaped(nodes) && d < |nodes|
    requires forall k, l :: 0 <= k < l < |cs| ==> cs[k] < cs[l]
    requires c in cs && InSubtree(nodes, c, d)
    requires forall x :: x in cs && InSubtree(nodes, x, d) ==> x == c
    ensures CountCovering(nodes, cs, d) == 1
  {
    if cs[0] == c {
      forall x | x in cs[1..] ensures !InSubtree(nodes, x, d) {
        var k :| 0 <= k < |cs[1..]| && cs[1..][k] == x;
        assert cs[0] < cs[k + 1];
      }
      CountCoveringNone(nodes, cs[1..], d);
    } else {
      CountCoveringOne(nodes, cs[1..], c, d);
    }
  }

  /**
   * Replacing a bus by its children keeps the count of covering buses, except
   * that the bus itself is no longer counted.
   */
  lemma ChildrenCover(nodes: seq<Node>, q: BusId, d: BusId)
    requires TreeShaped(nodes) && q < |nodes| && d < |nodes|
    ensures CountCovering(nodes, nodes[q].children, d) + (if q == d then 1 else 0)
            == (if InSubtree(nodes, q, d) then 1 else 0)
  {
    var cs := nodes[q].children;
    if q == d || !InSubtree(nodes, q, d) {
      forall c | c in cs ensures !InSubtree(nodes, c, d) {
        var k :| 0 <= k < |cs| && cs[k] == c;
        if InSubtree(nodes, c, d) {
          if q == d {
            InSubtreeOrdered(nodes, c, d);
          } else {
            InSubtreeViaChild(nodes, q, c, d);
          }
        }
      }
      CountCoveringNone(nodes, cs, d);
    } else {
      var c := DescendantBelowChild(nodes, q, d);
      forall x | x in cs && InSubtree(nodes, x, d) ensures x == c {
        ChildCoverUnique(nodes, q, x, c, d);
      }
      CountCoveringOne(nodes, cs, c, d);
    }
  }

  /** Each bus appears in a traversal as often as the queue holds buses covering it. */
  lemma {:induction false} BfsCount(nodes: seq<Node>, queue: seq<BusId>, d: BusId)
    requires TreeShaped(nodes) && AllBuses(nodes, queue) && d < |nodes|
    ensures multiset(Bfs(nodes, queue))[d] == CountCovering(nodes, queue, d)
    decreases Weight(nodes, queue)
  {
    if queue != [] {
      var b := queue[0];
      var next := queue[1..] + nodes[b].children;
      WeightOfChildren(nodes, b, 0);
      assert nodes[b].children[0..] == nodes[b].children;
      WeightAppend(nodes, queue[1..], nodes[b].children);
      BfsCount(nodes, next, d);
      CountCoveringAppend(nodes, queue[1..], nodes[b].children, d);
      ChildrenCover(nodes, b, d);
      assert Bfs(nodes, queue) == [b] + Bfs(nodes, next);
    }
  }

  /**
   * Breadth-first from `o` visits `o` and each of its descendants exactly once
   * and nothing else; in particular no ancestor of `o`.
   */
  lemma SubtreeVisitedOnce(nodes: seq<Node>, o: BusId, d: BusId)
    requires TreeShaped(nodes) && o < |nodes|
    ensures multiset(Bfs(nodes, [o]))[d] == if d < |nodes| && InSubtree(nodes, o, d) then 1 else 0
    ensures d < o ==> d !in Bfs(nodes, [o])
  {
    if d < |nodes| {
      BfsCount(nodes, [o], d);
      assert [o][1..] == [];
      if InSubtree(nodes, o, d) {
        InSubtreeOrdered(nodes, o, d);
      }
    } else {
      assert d !in Bfs(nodes, [o]);
    }
  }

  /** Breadth-first from `o` starts at `o`. */
  lemma BfsStartsAtOrigin(nodes: seq<Node>, o: BusId)
    requires TreeShaped(nodes) && o < |nodes|
    ensures Bfs(nodes, [o]) == [o] + Bfs(nodes, nodes[o].children)
  {
    assert [o][1..] + nodes[o].children == nodes[o].children;
  }

  /**
   * The queue discipline: the buses already queued are visited first, in queue
   * order, before anything enqueued later.
   */
  lemma {:induction false} BfsKeepsQueueOrder(nodes: seq<Node>, queue: seq<BusId>)
    requires TreeShaped(nodes) && AllBuses(nodes, queue)
    ensures |queue| <= |Bfs(nodes, queue)| && Bfs(nodes, queue)[..|queue|] == queue
    decreases Weight(nodes, queue)
  {
    if queue != [] {
      var next := queue[1..] + nodes[queue[0]].children;
      BfsUnfold(nodes, queue);
      BfsKeepsQueueOrder(nodes, next);
      var rest := Bfs(nodes, next);
      assert rest[..|queue| - 1] == next[..|queue| - 1] == queue[1..];
      assert Bfs(nodes, queue)[..|queue|] == [queue[0]] + rest[..|queue| - 1];
    }
  }

  /** Breadth-first from `o`: the origin, then its children in `children` order, then the deeper buses. */
  lemma ChildrenFollowOrigin(nodes: seq<Node>, o: BusId)
    requires TreeShaped(nodes) && o < |nodes|
    ensures 1 + |nodes[o].children| <= |Bfs(nodes, [o])|
    ensures Bfs(nodes, [o])[..1 + |nodes[o].children|] == [o] + nodes[o].children
  {
    var cs := nodes[o].children;
    assert AllBuses(nodes, cs);
    BfsStartsAtOrigin(nodes, o);
    BfsKeepsQueueOrder(nodes, cs);
    var rest := Bfs(nodes, cs);
    assert ([o] + rest)[..1 + |cs|] == [o] + rest[..|cs|];
  }

  // ---------------------------------------------------------------------------
  // TO_CHILDREN order: level by level, siblings in `children` order

  /** Number of ancestors of `b`: its distance from the root. */
  function Depth(nodes: seq<Node>, b: BusId): nat
    requires TreeShaped(nodes) && b < |nodes|
    decreases b
  {
    if nodes[b].parent.None? then 0 else 1 + Depth(nodes, nodes[b].parent.value)
  }

  /** The depth is the number of ancestors on the parent chain. */
  lemma {:induction false} DepthCountsAncestors(nodes: seq<Node>, b: BusId)
    requires TreeShaped(nodes) && b < |nodes|
    ensures Depth(nodes, b) == |AncestorChain(nodes, b)| - 1
    decreases b
  {
    if nodes[b].parent.Some? {
      DepthCountsAncestors(nodes, nodes[b].parent.value);
    }
  }

  /** The depths of the buses of `s`, in order. */
  function Depths(nodes: seq<Node>, s: seq<BusId>): (ds: seq<nat>)
    requires TreeShaped(nodes) && AllBuses(nodes, s)
    ensures |ds| == |s|
  {
    if s == [] then [] else [Depth(nodes, s[0])] + Depths(nodes, s[1..])
  }

  lemma {:induction false} DepthsAt(nodes: seq<Node>, s: seq<BusId>, k: nat)
    requires TreeShaped(nodes) && AllBuses(nodes, s) && k < |s|
    ensures Depths(nodes, s)[k] == Depth(nodes, s[k])
    decreases k
  {
    if k > 0 {
      DepthsAt(nodes, s[1..], k - 1);
    }
  }

  lemma {:induction false} DepthsAppend(nodes: seq<Node>, a: seq<BusId>, b: seq<BusId>)
    requires TreeShaped(nodes) && AllBuses(nodes, a) && AllBuses(nodes, b)
    ensures AllBuses(nodes, a + b) && Depths(nodes, a + b) == Depths(nodes, a) + Depths(nodes, b)
    decreases |a|
  {
    if a == [] {
      assert a + b == b;
    } else {
      assert (a + b)[0] == a[0] && (a + b)[1..] == a[1..] + b;
      DepthsAppend(nodes, a[1..], b);
      var h := [Depth(nodes, a[0])];
      assert h + (Depths(nodes, a[1..]) + Depths(nodes, b)) == (h + Depths(nodes, a[1..])) + Depths(nodes, b);
    }
  }

  lemma DepthsCons(nodes: seq<Node>, b: BusId, rest: seq<BusId>)
    requires TreeShaped(nodes) && b < |nodes| && AllBuses(nodes, rest)
    ensures AllBuses(nodes, [b] + rest) && Depths(nodes, [b] + rest) == [Depth(nodes, b)] + Depths(nodes, rest)
  {
    assert ([b] + rest)[1..] == rest;
  }

  /** Non-decreasing. */
  predicate Ascending(ds: seq<nat>)
  {
    forall i, j :: 0 <= i < j < |ds| ==> ds[i] <= ds[j]
  }

  /** Non-decreasing, and spanning at most two adjacent values. */
  predicate TwoLevels(ds: seq<nat>)
  {
    Ascending(ds) && (ds != [] ==> ds[|ds| - 1] <= ds[0] + 1)
  }

  /** Depths never decrease along `s`. */
  predicate ByLevel(nodes: seq<Node>, s: seq<BusId>)
    requires TreeShaped(nodes) && AllBuses(nodes, s)
  {
    Ascending(Depths(nodes, s))
  }

  /** A breadth-first queue: sorted by depth, and spanning at most two adjacent levels. */
  predicate Layered(nodes: seq<Node>, queue: seq<BusId>)
    requires TreeShaped(nodes) && AllBuses(nodes, queue)
  {
    TwoLevels(Depths(nodes, queue))
  }

  /** A child lies one level below its parent. */
  lemma ChildrenOneLevelDown(nodes: seq<Node>, b: BusId)
    requires TreeShaped(nodes) && b < |nodes|
    ensures AllBuses(nodes, nodes[b].children)
    ensures forall k :: 0 <= k < |nodes[b].children| ==>
              Depths(nodes, nodes[b].children)[k] == Depth(nodes, b) + 1
  {
    forall k | 0 <= k < |nodes[b].children|
      ensures Depths(nodes, nodes[b].children)[k] == Depth(nodes, b) + 1
    {
      DepthsAt(nodes, nodes[b].children, k);
      assert nodes[nodes[b].children[k]].parent == Some(b);
    }
  }

  /**
   * Depth bookkeeping of one breadth-first step: dropping the head `d` of a
   * two-level queue and appending children one level below `d` keeps it two-level,
   * and its new head is no shallower.
   */
  lemma LevelsNext(d: nat, tail: seq<nat>, cs: seq<nat>)
    requires TwoLevels([d] + tail)
    requires forall k :: 0 <= k < |cs| ==> cs[k] == d + 1
    ensures TwoLevels(tail + cs)
    ensures tail + cs != [] ==> d <= (tail + cs)[0]
  {
    var q := [d] + tail;
    var next := tail + cs;
    forall i, j | 0 <= i < j < |next|
      ensures next[i] <= next[j]
    {
      if j < |tail| {
        assert next[i] == q[i + 1] && next[j] == q[j + 1];
      } else if i < |tail| {
        assert next[i] == q[i + 1] && q[i + 1] <= q[|q| - 1];
      }
    }
    if next != [] {
      if tail != [] {
        assert next[0] == q[1] && q[0] <= q[1];
      }
      if cs == [] {
        assert next[|next| - 1] == q[|q| - 1];
      }
    }
  }

  /** A value no larger than anything in an ascending sequence can go in front of it. */
  lemma AscendingCons(d: nat, ds: seq<nat>)
    requires Ascending(ds) && forall k :: 0 <= k < |ds| ==> d <= ds[k]
    ensures Ascending([d] + ds)
    ensures forall k :: 0 <= k < |[d] + ds| ==> d <= ([d] + ds)[k]
  {
    var e := [d] + ds;
    forall i, j | 0 <= i < j < |e|
      ensures e[i] <= e[j]
    {
      assert e[j] == ds[j - 1];
      if i > 0 {
        assert e[i] == ds[i - 1];
      }
    }
    forall k | 0 <= k < |e|
      ensures d <= e[k]
    {
      if k > 0 {
        assert e[k] == ds[k - 1];
      }
    }
  }

  /**
   * Breadth-first from a layered queue visits the buses level by level, never
   * above the head's level.
   */
  lemma {:induction false} BfsByLevelFrom(nodes: seq<Node>, queue: seq<BusId>)
    requires TreeShaped(nodes) && AllBuses(nodes, queue) && Layered(nodes, queue)
    ensures ByLevel(nodes, Bfs(nodes, queue))
    ensures queue != [] ==> forall k :: 0 <= k < |Bfs(nodes, queue)| ==>
              Depth(nodes, queue[0]) <= Depths(nodes, Bfs(nodes, queue))[k]
    decreases Weight(nodes, queue)
  {
    if queue != [] {
      var b := queue[0];
      var tail := queue[1..];
      var cs := nodes[b].children;
      var next := tail + cs;
      BfsUnfold(nodes, queue);
      ChildrenOneLevelDown(nodes, b);
      DepthsAppend(nodes, tail, cs);
      LevelsNext(Depth(nodes, b), Depths(nodes, tail), Depths(nodes, cs));
      BfsByLevelFrom(nodes, next);
      var rest := Bfs(nodes, next);
      if next != [] {
        assert Depths(nodes, next)[0] == Depth(nodes, next[0]);
      }
      DepthsCons(nodes, b, rest);
      AscendingCons(Depth(nodes, b), Depths(nodes, rest));
    }
  }

  /**
   * TO_CHILDREN from `o` visits its subtree level by level: a bus comes no
   * earlier than any shallower one, and no bus lies above the origin.
   */
  lemma BfsByLevel(nodes: seq<Node>, o: BusId)
    requires TreeShaped(nodes) && o < |nodes|
    ensures forall i, j :: 0 <= i < j < |Bfs(nodes, [o])| ==>
              Depth(nodes, Bfs(nodes, [o])[i]) <= Depth(nodes, Bfs(nodes, [o])[j])
    ensures forall k :: 0 <= k < |Bfs(nodes, [o])| ==> Depth(nodes, o) <= Depth(nodes, Bfs(nodes, [o])[k])
  {
    assert Depths(nodes, [o]) == [Depth(nodes, o)] + Depths(nodes, []);
    BfsByLevelFrom(nodes, [o]);
    var order := Bfs(nodes, [o]);
    forall i, j | 0 <= i < j < |order|
      ensures Depth(nodes, order[i]) <= Depth(nodes, order[j])
    {
      DepthsAt(nodes, order, i);
      DepthsAt(nodes, order, j);
    }
    forall k | 0 <= k < |order|
      ensures Depth(nodes, o) <= Depth(nodes, order[k])
    {
      DepthsAt(nodes, order, k);
    }
  }

  /** `a` occurs in `s` before `b` does. */
  predicate Before(s: seq<BusId>, a: BusId, b: BusId)
  {
    exists i, j :: 0 <= i < j < |s| && s[i] == a && s[j] == b
  }

  /** Order is kept when a bus goes in front. */
  lemma BeforeCons(b: BusId, rest: seq<BusId>, x: BusId, y: BusId)
    requires Before(rest, x, y)
    ensures Before([b] + rest, x, y)
  {
    var i, j :| 0 <= i < j < |rest| && rest[i] == x && rest[j] == y;
    assert ([b] + rest)[i + 1] == x && ([b] + rest)[j + 1] == y;
  }

  /** Order in a prefix is order in the whole. */
  lemma BeforeInPrefix(s: seq<BusId>, prefix: seq<BusId>, x: BusId, y: BusId)
    requires |prefix| <= |s| && s[..|prefix|] == prefix && Before(prefix, x, y)
    ensures Before(s, x, y)
  {
    var i, j :| 0 <= i < j < |prefix| && prefix[i] == x && prefix[j] == y;
    assert s[i] == x && s[j] == y;
  }

  /** Queued children keep their order behind the rest of the queue. */
  lemma BeforeAmongAppended(tail: seq<BusId>, cs: seq<BusId>, k: nat, l: nat)
    requires k < l < |cs|
    ensures Before(tail + cs, cs[k], cs[l])
  {
    assert (tail + cs)[|tail| + k] == cs[k] && (tail + cs)[|tail| + l] == cs[l];
  }

  /** Every bus the traversal reaches has its children visited in `children` order. */
  lemma {:induction false} SiblingsInOrderFrom(nodes: seq<Node>, queue: seq<BusId>, p: BusId, k: nat, l: nat)
    requires TreeShaped(nodes) && AllBuses(nodes, queue)
    requires p < |nodes| && p in Bfs(nodes, queue) && k < l < |nodes[p].children|
    ensures Before(Bfs(nodes, queue), nodes[p].children[k], nodes[p].children[l])
    decreases Weight(nodes, queue)
  {
    var b := queue[0];
    var next := queue[1..] + nodes[b].children;
    BfsUnfold(nodes, queue);
    var rest := Bfs(nodes, next);
    if b == p {
      BeforeAmongAppended(queue[1..], nodes[p].children, k, l);
      BfsKeepsQueueOrder(nodes, next);
      BeforeInPrefix(rest, next, nodes[p].children[k], nodes[p].children[l]);
    } else {
      assert p in rest;
      SiblingsInOrderFrom(nodes, next, p, k, l);
    }
    BeforeCons(b, rest, nodes[p].children[k], nodes[p].children[l]);
  }

  /**
   * TO_CHILDREN from `o`: for every bus `q` of the subtree, its `k`-th child
   * is visited, once, before its `l`-th child, also visited once.
   */
  lemma SiblingsInOrder(nodes: seq<Node>, o: BusId, q: BusId, k: nat, l: nat)
    requires TreeShaped(nodes) && o < |nodes| && q < |nodes| && InSubtree(nodes, o, q)
    requires k < l < |nodes[q].children|
    ensures Before(Bfs(nodes, [o]), nodes[q].children[k], nodes[q].children[l])
    ensures multiset(Bfs(nodes, [o]))[nodes[q].children[k]] == 1
    ensures multiset(Bfs(nodes, [o]))[nodes[q].children[l]] == 1
  {
    var ck, cl := nodes[q].children[k], nodes[q].children[l];
    SubtreeVisitedOnce(nodes, o, q);
    assert q in Bfs(nodes, [o]);
    SiblingsInOrderFrom(nodes, [o], q, k, l);
    assert nodes[ck].parent == Some(q) && nodes[cl].parent == Some(q);
    SubtreeVisitedOnce(nodes, o, ck);
    SubtreeVisitedOnce(nodes, o, cl);
  }

  // ---------------------------------------------------------------------------
  // What a publish reads: parents, children and registries, not the cache

  /** `a` and `b` agree on every bus's parent, children and registry; caches and handlers may differ. */
  predicate SameRouting(a: seq<Node>, b: seq<Node>)
  {
    && |a| == |b|
    && forall i :: 0 <= i < |a| ==>
         a[i].parent == b[i].parent && a[i].children == b[i].children && a[i].subscribers == b[i].subscribers
  }

  /** Caching a publisher at one bus changes nothing a publish reads. */
  lemma CachingKeepsRouting(nodes: seq<Node>, b: BusId, publishers: map<Topic, Publisher>)
    requires b < |nodes|
    ensures SameRouting(nodes, nodes[b := nodes[b].(publishers := publishers)])
  {
  }

  /** The tree shape reads only parents and children. */
  lemma SameRoutingTreeShaped(a: seq<Node>, b: seq<Node>)
    requires SameRouting(a, b) && TreeShaped(a)
    ensures TreeShaped(b)
  {
    forall i, k | 0 <= i < |b| && 0 <= k < |b[i].children|
      ensures b[i].children[k] < |b| && b[b[i].children[k]].parent == Some(i)
    {
      assert a[i].children[k] == b[i].children[k];
    }
  }

  /** The parent chain reads only parents. */
  lemma {:induction false} AncestorChainSameRouting(a: seq<Node>, b: seq<Node>, o: BusId)
    requires SameRouting(a, b) && TreeShaped(a) && TreeShaped(b) && o < |a|
    ensures AncestorChain(a, o) == AncestorChain(b, o)
    decreases o
  {
    if a[o].parent.Some? {
      AncestorChainSameRouting(a, b, a[o].parent.value);
    }
  }

  /** The breadth-first order reads only children. */
  lemma {:induction false} BfsSameRouting(a: seq<Node>, b: seq<Node>, queue: seq<BusId>)
    requires SameRouting(a, b) && TreeShaped(a) && TreeShaped(b) && AllBuses(a, queue)
    ensures AllBuses(b, queue) && Bfs(a, queue) == Bfs(b, queue)
    decreases Weight(a, queue)
  {
    if queue != [] {
      var next := queue[1..] + a[queue[0]].children;
      BfsUnfold(a, queue);
      BfsUnfold(b, queue);
      assert b[queue[0]].children == a[queue[0]].children;
      BfsSameRouting(a, b, next);
    }
  }
}
