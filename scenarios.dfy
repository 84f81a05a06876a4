/**
 * The broadcast scenario of the repository's direction test: a chain of five
 * buses 0 -> 1 -> 2 -> 3 -> 4, one subscriber per bus for the same topic, and
 * a publish at bus 2 under each of the four directions.
 */
module Scenarios {
  import opened Wrappers
  import opened Topics
  import opened Registry
  import opened BusTree
  import opened Dispatch
  import opened MessageBusImpl

  /** Bus `i` of the chain, subscribed once to `topic` with subscriber `i`. */
  function ChainNode(i: nat, topic: Topic): Node
  {
    Node(if i == 0 then None else Some(i - 1),
         if i < 4 then [i + 1] else [],
         map[topic := [Subscriber(i)]],
         map[],
         None)
  }

  /** The five-bus chain of the direction test. */
  function Chain(topic: Topic): (nodes: seq<Node>)
    ensures |nodes| == 5 && TreeShaped(nodes)
    ensures forall i :: 0 <= i < 5 ==> nodes[i] == ChainNode(i, topic)
  {
    [ChainNode(0, topic), ChainNode(1, topic), ChainNode(2, topic), ChainNode(3, topic), ChainNode(4, topic)]
  }

  /** Bus `i` of a chain of `n` buses, before anything subscribes. */
  function BareNode(i: nat, n: nat): Node
  {
    Node(if i == 0 then None else Some(i - 1), if i + 1 < n then [i + 1] else [], map[], map[], None)
  }

  /** The first `n` buses of the chain, with nothing subscribed. */
  predicate IsBareChain(nodes: seq<Node>, n: nat)
  {
    |nodes| == n && forall i :: 0 <= i < n ==> nodes[i] == BareNode(i, n)
  }

  /** `new MessageBusImpl(last)` on a bare chain of `n` buses gives a bare chain of `n + 1`. */
  lemma ChainGrows(before: seq<Node>, after: seq<Node>, n: nat)
    requires IsBareChain(before, n) && n >= 1
    requires after == before[n - 1 := before[n - 1].(children := before[n - 1].children + [n])] + [NewNode(Some(n - 1))]
    ensures IsBareChain(after, n + 1)
  {
    forall i | 0 <= i <= n
      ensures after[i] == BareNode(i, n + 1)
    {
      if i < n - 1 {
        assert after[i] == before[i] == BareNode(i, n);
      } else if i == n - 1 {
        assert before[i] == BareNode(i, n);
        assert BareNode(i, n).children + [n] == [n];
      }
    }
  }

  /** The chain of five buses, of which the first `k` have subscribed. */
  predicate SubscribedUpTo(nodes: seq<Node>, topic: Topic, k: nat)
  {
    |nodes| == 5 && forall i :: 0 <= i < 5 ==> nodes[i] == if i < k then ChainNode(i, topic) else BareNode(i, 5)
  }

  /** With nothing subscribed yet, the bare chain; once all five have subscribed, the test's chain. */
  lemma SubscribedEnds(nodes: seq<Node>, topic: Topic)
    ensures IsBareChain(nodes, 5) ==> SubscribedUpTo(nodes, topic, 0)
    ensures SubscribedUpTo(nodes, topic, 5) ==> nodes == Chain(topic)
  {
    if SubscribedUpTo(nodes, topic, 5) {
      assert forall i :: 0 <= i < 5 ==> nodes[i] == Chain(topic)[i];
    }
  }

  /** `subscribe` at bus `k` of that chain makes bus `k` the chain's bus `k`. */
  lemma ChainSubscribes(before: seq<Node>, after: seq<Node>, topic: Topic, k: nat)
    requires SubscribedUpTo(before, topic, k) && k < 5
    requires after == before[k := before[k].(subscribers := Subscribed(before[k].subscribers, topic, Subscriber(k)))]
    ensures SubscribedUpTo(after, topic, k + 1)
  {
    assert before[k] == BareNode(k, 5);
    var reg := Subscribed(map[], topic, Subscriber(k));
    assert Lookup(map[], topic) == [];
    assert reg.Keys == {topic} && reg[topic] == [Subscriber(k)];
    assert reg == map[topic := [Subscriber(k)]];
    assert after[k] == ChainNode(k, topic);
  }

  /** `new MessageBusImpl(last)` on a bare chain of `n` buses: the new bus is bus `n`, the child of bus `n - 1`. */
  method AppendChainBus(arena: MessageBusArena, n: nat) returns (b: BusId)
    requires arena.Valid() && IsBareChain(arena.nodes, n) && n >= 1
    modifies arena
    ensures arena.Valid() && IsBareChain(arena.nodes, n + 1) && b == n
  {
    ghost var before := arena.nodes;
    b := arena.NewBus(Some(n - 1));
    ChainGrows(before, arena.nodes, n);
  }

  /** The test's five `new MessageBusImpl` calls, each bus the child of the one before. */
  method NewChainBuses() returns (arena: MessageBusArena)
    ensures fresh(arena) && arena.Valid() && IsBareChain(arena.nodes, 5)
  {
    arena := new MessageBusArena();
    var d0 := arena.NewBus(None);
    assert IsBareChain(arena.nodes, 1);
    var d1 := AppendChainBus(arena, 1);
    var d2 := AppendChainBus(arena, 2);
    var d3 := AppendChainBus(arena, 3);
    var d4 := AppendChainBus(arena, 4);
  }

  /** `subscribe` of subscriber `k` at bus `k` of the chain, once buses `0` to `k - 1` have subscribed. */
  method SubscribeChainBus(arena: MessageBusArena, topic: Topic, k: nat)
    requires arena.Valid() && SubscribedUpTo(arena.nodes, topic, k) && k < 5
    modifies arena
    ensures arena.Valid() && SubscribedUpTo(arena.nodes, topic, k + 1)
  {
    ghost var before := arena.nodes;
    arena.Subscribe(k, topic, Subscriber(k));
    ChainSubscribes(before, arena.nodes, topic, k);
  }

  /**
   * The test's set-up: the five buses, then one subscriber per bus for `topic`.
   * It builds exactly the chain of the scenarios below.
   */
  method SetUpChain(topic: Topic) returns (arena: MessageBusArena)
    ensures fresh(arena) && arena.Valid() && arena.nodes == Chain(topic)
  {
    arena := NewChainBuses();
    SubscribedEnds(arena.nodes, topic);
    SubscribeChainBus(arena, topic, 0);
    SubscribeChainBus(arena, topic, 1);
    SubscribeChainBus(arena, topic, 2);
    SubscribeChainBus(arena, topic, 3);
    SubscribeChainBus(arena, topic, 4);
    SubscribedEnds(arena.nodes, topic);
  }

  /** The single invocation made at bus `i` of the chain. */
  function At(i: nat): Invocation
  {
    Invocation(i, Subscriber(i))
  }

  /** Visiting `b` then `rest` on the chain: the one invocation at `b`, then those of `rest`. */
  lemma VisitChainBus(topic: Topic, b: BusId, rest: seq<BusId>)
    requires b < 5
    ensures Invocations(Chain(topic), [b] + rest, topic) == [At(b)] + Invocations(Chain(topic), rest, topic)
  {
    InvocationsCons(Chain(topic), b, rest, topic);
    assert ListAt(Chain(topic), b, topic) == [Subscriber(b)];
    assert InvocationsAt(b, [Subscriber(b)]) == [At(b)];
  }

  /** NONE at bus 2 reaches bus 2 only. */
  lemma PublishAtMiddleLocal(topic: Topic)
    ensures Expected(Chain(topic), LocalPublisher, 2, topic) == [At(2)]
  {
    VisitChainBus(topic, 2, []);
    assert [2] + [] == [2];
  }

  /** Breadth-first from the leaf 4: the leaf alone. */
  lemma ChainBfsFromLeaf(topic: Topic)
    ensures Bfs(Chain(topic), [4]) == [4]
  {
    var nodes := Chain(topic);
    assert nodes[4].children == [];
    BfsUnfold(nodes, [4]);
    assert [4][1..] + nodes[4].children == [];
  }

  /** Breadth-first from a bus above the leaf: the bus, then the breadth-first order from its child. */
  lemma ChainBfsStep(topic: Topic, b: BusId)
    requires b < 4
    ensures Bfs(Chain(topic), [b]) == [b] + Bfs(Chain(topic), [b + 1])
  {
    var nodes := Chain(topic);
    assert nodes[b].children == [b + 1];
    BfsUnfold(nodes, [b]);
    assert [b][1..] + nodes[b].children == [b + 1];
  }

  /** Breadth-first from bus 2: bus 2, then 3, then 4. */
  lemma ChainBfsFromMiddle(topic: Topic)
    ensures Bfs(Chain(topic), [2]) == [2] + ([3] + [4])
  {
    ChainBfsFromLeaf(topic);
    ChainBfsStep(topic, 3);
    ChainBfsStep(topic, 2);
  }

  /** TO_CHILDREN at bus 2 reaches 2, 3 and 4, in that order. */
  lemma PublishAtMiddleToChildren(topic: Topic)
    ensures Expected(Chain(topic), ToChildrenPublisher, 2, topic) == [At(2), At(3), At(4)]
  {
    var nodes := Chain(topic);
    ChainBfsFromMiddle(topic);
    assert [4] == [4] + [];
    VisitChainBus(topic, 4, []);
    VisitChainBus(topic, 3, [4] + []);
    VisitChainBus(topic, 2, [3] + ([4] + []));
  }

  /** TO_DIRECT_CHILDREN at bus 2 reaches 2 and its child 3, not the grandchild 4. */
  lemma PublishAtMiddleToDirectChildren(topic: Topic)
    ensures Expected(Chain(topic), ToDirectChildrenPublisher, 2, topic) == [At(2), At(3)]
  {
    assert [2] + Chain(topic)[2].children == [2] + ([3] + []);
    VisitChainBus(topic, 3, []);
    VisitChainBus(topic, 2, [3] + []);
  }

  /** TO_PARENT at bus 2 reaches 2, 1 and 0, in that order. */
  lemma PublishAtMiddleToParent(topic: Topic)
    ensures Expected(Chain(topic), ToParentPublisher, 2, topic) == [At(2), At(1), At(0)]
  {
    var nodes := Chain(topic);
    assert AncestorChain(nodes, 0) == [0];
    assert AncestorChain(nodes, 1) == [1] + [0];
    assert AncestorChain(nodes, 2) == [2] + ([1] + [0]);
    VisitChainBus(topic, 0, []);
    assert [0] + [] == [0];
    VisitChainBus(topic, 1, [0]);
    VisitChainBus(topic, 2, [1] + [0]);
  }

  /**
   * `run(direction)` of the direction test: set up the chain, then publish once
   * through bus 2's proxy for the topic "Event" with that direction. Whatever the
   * subscribers do, no handler is called, since no bus has one.
   */
  method RunDirectionTest(direction: BroadcastDirection, listener: SubscriberClass,
                          m: MethodRef, args: Args, outcome: Oracle)
    returns (trace: seq<Invocation>, handled: Option<HandlerCall>)
    ensures direction == NoBroadcast ==> trace == [At(2)]
    ensures direction == ToChildren ==> trace == [At(2), At(3), At(4)]
    ensures direction == ToDirectChildren ==> trace == [At(2), At(3)]
    ensures direction == ToParent ==> trace == [At(2), At(1), At(0)]
    ensures handled.None?
  {
    var topic := NewTopic("Event", listener, direction);
    var arena := SetUpChain(topic);
    var p := arena.GetPublisher(2, topic);
    CachingKeepsRouting(Chain(topic), 2, arena.nodes[2].publishers);
    assert arena.nodes == Chain(topic)[2 := Chain(topic)[2].(publishers := arena.nodes[2].publishers)];
    ExpectedSameRouting(Chain(topic), arena.nodes, p.strategy, 2, topic);
    if direction == ToParent {
      EveryChainBusHasList(topic);
      ChainHasListsSameRouting(Chain(topic), arena.nodes, 2, topic);
    }
    trace, handled := arena.Invoke(p, m, args, outcome);
    match direction {
      case NoBroadcast => PublishAtMiddleLocal(topic);
      case ToChildren => PublishAtMiddleToChildren(topic);
      case ToDirectChildren => PublishAtMiddleToDirectChildren(topic);
      case ToParent => PublishAtMiddleToParent(topic);
    }
  }

  /** In the test every bus subscribes, so the TO_PARENT loop as written ends (its precondition holds). */
  lemma EveryChainBusHasList(topic: Topic)
    ensures ChainHasLists(Chain(topic), 2, topic)
    ensures ToParentAfter(Chain(topic), topic, Some(2), 3) == None
  {
    var nodes := Chain(topic);
    assert ChainHasLists(nodes, 0, topic);
    assert ChainHasLists(nodes, 1, topic);
    assert AncestorChain(nodes, 2) == [2] + ([1] + [0]);
    ToParentEnds(nodes, topic, 2);
  }

  /** The same chain, except that bus 1 never subscribed: it has no list for the topic. */
  function GapChain(topic: Topic): (nodes: seq<Node>)
    ensures |nodes| == 5 && TreeShaped(nodes)
    ensures nodes[1].parent == Some(0) && nodes[1].subscribers == map[]
    ensures nodes[2].parent == Some(1) && topic in nodes[2].subscribers
  {
    var nodes := Chain(topic)[1 := ChainNode(1, topic).(subscribers := map[])];
    assert forall i :: 0 <= i < 5 ==> nodes[i].parent == Chain(topic)[i].parent && nodes[i].children == Chain(topic)[i].children;
    nodes
  }

  /** Publishing TO_PARENT at bus 2 of that chain: the loop as written never leaves bus 1. */
  lemma GapChainNeverEnds(topic: Topic, k: nat)
    ensures ToParentAfter(GapChain(topic), topic, Some(2), k).Some?
  {
    var nodes := GapChain(topic);
    assert !ChainHasLists(nodes, 1, topic);
    assert !ChainHasLists(nodes, 2, topic);
    ToParentNeverEnds(nodes, topic, 2, k);
  }
}
