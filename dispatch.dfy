/**
 * What one publish does, as values: which (bus, subscriber) pairs are invoked
 * and in what order, which failures are collected, and whether the
 * origin's exception handler is called.
 */
module Dispatch {
  import opened Wrappers
  import opened Topics
  import opened Registry
  import opened BusTree

  /** The subscriber interface method being published, opaque here. */
  datatype MethodRef = MethodRef(id: nat)
  /** The argument array of a publish, opaque here. */
  datatype Args = Args(id: nat)
  /** A failure raised by one subscriber invocation. */
  datatype Throwable = Throwable(id: nat)

  /**
   * The outcome of `method.invoke(subscriber, args)`: `Some(t)` when the call
   * throws `t`. It stands for the subscribers' own code.
   */
  type Oracle = (Subscriber, MethodRef, Args) -> Option<Throwable>

  /** One subscriber invocation, at the bus whose list it came from. */
  datatype Invocation = Invocation(bus: BusId, subscriber: Subscriber)

  /** The one call made to an exception handler at the end of a publish. */
  datatype HandlerCall = HandlerCall(
    handler: HandlerRef, topic: Topic, invoked: MethodRef, args: Args, throwables: seq<Throwable>)

  // ---------------------------------------------------------------------------
  // Invocation traces

  /** Invoking `list` in order at bus `b`. */
  function InvocationsAt(b: BusId, list: seq<Subscriber>): (trace: seq<Invocation>)
    ensures |trace| == |list|
    ensures forall k :: 0 <= k < |list| ==> trace[k] == Invocation(b, list[k])
  {
    if list == [] then [] else [Invocation(b, list[0])] + InvocationsAt(b, list[1..])
  }

  /** Invoking every subscriber of `topic` at each bus of `buses`, bus by bus. */
  function Invocations(nodes: seq<Node>, buses: seq<BusId>, topic: Topic): seq<Invocation>
  {
    if buses == [] then []
    else InvocationsAt(buses[0], ListAt(nodes, buses[0], topic)) + Invocations(nodes, buses[1..], topic)
  }

  lemma {:induction false} InvocationsAppend(nodes: seq<Node>, a: seq<BusId>, b: seq<BusId>, topic: Topic)
    ensures Invocations(nodes, a + b, topic) == Invocations(nodes, a, topic) + Invocations(nodes, b, topic)
  {
    if a == [] {
      assert a + b == b;
    } else {
      assert (a + b)[1..] == a[1..] + b;
      assert (a + b)[0] == a[0];
      InvocationsAppend(nodes, a[1..], b, topic);
    }
  }

  /** The trace of a bus sequence starts with the invocations at its first bus. */
  lemma InvocationsCons(nodes: seq<Node>, b: BusId, rest: seq<BusId>, topic: Topic)
    ensures Invocations(nodes, [b] + rest, topic) == InvocationsAt(b, ListAt(nodes, b, topic)) + Invocations(nodes, rest, topic)
  {
    assert ([b] + rest)[1..] == rest;
  }

  lemma {:induction false} InvocationsAtAppend(b: BusId, list: seq<Subscriber>, s: Subscriber)
    ensures InvocationsAt(b, list + [s]) == InvocationsAt(b, list) + [Invocation(b, s)]
  {
  }

  lemma {:induction false} InvocationsAtCount(b: BusId, list: seq<Subscriber>, x: Invocation)
    ensures multiset(InvocationsAt(b, list))[x] == if x.bus == b then multiset(list)[x.subscriber] else 0
  {
    if list != [] {
      InvocationsAtCount(b, list[1..], x);
      assert list == [list[0]] + list[1..];
    }
  }

  lemma AddOneTimes(v: nat, m: nat)
    ensures (v + 1) * m == m + v * m
  {
  }

  /**
   * A subscriber registered `m` times at a bus visited `v` times is invoked
   * there exactly `v * m` times.
   */
  lemma {:induction false} InvocationsCount(nodes: seq<Node>, buses: seq<BusId>, topic: Topic, x: Invocation)
    ensures multiset(Invocations(nodes, buses, topic))[x]
            == multiset(buses)[x.bus] * multiset(ListAt(nodes, x.bus, topic))[x.subscriber]
  {
    if buses != [] {
      var b0: BusId := buses[0];
      var rest: seq<BusId> := buses[1..];
      assert buses == [b0] + rest;
      var here := InvocationsAt(b0, ListAt(nodes, b0, topic));
      assert multiset(Invocations(nodes, buses, topic))[x]
             == multiset(here)[x] + multiset(Invocations(nodes, rest, topic))[x];
      InvocationsCount(nodes, rest, topic, x);
      InvocationsAtCount(b0, ListAt(nodes, b0, topic), x);
      var m: nat := multiset(ListAt(nodes, x.bus, topic))[x.subscriber];
      var v: nat := multiset(rest)[x.bus];
      if b0 == x.bus {
        assert multiset(buses)[x.bus] == v + 1;
        AddOneTimes(v, m);
      } else {
        assert multiset(buses)[x.bus] == v;
      }
    }
  }

  /** Over a bus sequence that visits each bus at most once, a registration is invoked once per visit. */
  lemma InvocationsOfDistinct(nodes: seq<Node>, buses: seq<BusId>, topic: Topic, x: Invocation)
    requires multiset(buses)[x.bus] <= 1
    ensures multiset(Invocations(nodes, buses, topic))[x]
            == if x.bus in buses then multiset(ListAt(nodes, x.bus, topic))[x.subscriber] else 0
  {
    InvocationsCount(nodes, buses, topic, x);
    var m: nat := multiset(ListAt(nodes, x.bus, topic))[x.subscriber];
    if x.bus in buses {
      assert multiset(buses)[x.bus] == 1;
      assert 1 * m == m;
    } else {
      assert multiset(buses)[x.bus] == 0;
      assert 0 * m == 0;
    }
  }

  // ---------------------------------------------------------------------------
  // Failure collection

  /** The failures raised along a trace, in invocation order. */
  function Failures(trace: seq<Invocation>, m: MethodRef, args: Args, outcome: Oracle): seq<Throwable>
  {
    if trace == [] then []
    else
      var here := outcome(trace[0].subscriber, m, args);
      (if here.Some? then [here.value] else []) + Failures(trace[1..], m, args, outcome)
  }

  lemma {:induction false} FailuresAppend(a: seq<Invocation>, b: seq<Invocation>, m: MethodRef, args: Args, outcome: Oracle)
    ensures Failures(a + b, m, args, outcome) == Failures(a, m, args, outcome) + Failures(b, m, args, outcome)
  {
    if a == [] {
      assert a + b == b;
    } else {
      assert (a + b)[1..] == a[1..] + b;
      assert (a + b)[0] == a[0];
      FailuresAppend(a[1..], b, m, args, outcome);
    }
  }

  /**
   * Failures are collected in invocation order: the failure of the `i`-th
   * invocation sits right after those of the invocations before it. There are
   * none exactly when no invocation fails.
   */
  lemma {:induction false} FailuresInOrder(trace: seq<Invocation>, m: MethodRef, args: Args, outcome: Oracle, i: nat)
    requires i < |trace| && outcome(trace[i].subscriber, m, args).Some?
    ensures |Failures(trace[..i], m, args, outcome)| < |Failures(trace, m, args, outcome)|
    ensures Failures(trace, m, args, outcome)[|Failures(trace[..i], m, args, outcome)|]
            == outcome(trace[i].subscriber, m, args).value
  {
    assert trace == trace[..i] + [trace[i]] + trace[i + 1..];
    FailuresAppend(trace[..i] + [trace[i]], trace[i + 1..], m, args, outcome);
    FailuresAppend(trace[..i], [trace[i]], m, args, outcome);
    assert [trace[i]][1..] == [];
  }

  lemma {:induction false} FailuresEmpty(trace: seq<Invocation>, m: MethodRef, args: Args, outcome: Oracle)
    ensures Failures(trace, m, args, outcome) == []
            <==> forall k :: 0 <= k < |trace| ==> outcome(trace[k].subscriber, m, args).None?
  {
    if trace != [] {
      FailuresEmpty(trace[1..], m, args, outcome);
      assert forall k :: 1 <= k < |trace| ==> trace[k] == trace[1..][k - 1];
    }
  }

  /** The lazily created failure list: null until the first failure. */
  function Lazy(failures: seq<Throwable>): (acc: Option<seq<Throwable>>)
    ensures acc.None? <==> failures == []
  {
    if failures == [] then None else Some(failures)
  }

  /** The contents of a lazily created list, null reading as empty. */
  function Collected(acc: Option<seq<Throwable>>): (failures: seq<Throwable>)
    ensures acc.Some? ==> failures == acc.value
    ensures acc.None? ==> failures == []
  {
    acc.GetOr([])
  }

  /** `handleThrowable`: creates the list on the first failure, then appends. */
  function HandleThrowable(t: Throwable, acc: Option<seq<Throwable>>): (r: Option<seq<Throwable>>)
    ensures r.Some? && Collected(r) == Collected(acc) + [t]
    ensures acc == Lazy(Collected(acc)) ==> r == Lazy(Collected(acc) + [t])
  {
    if acc.None? then Some([t]) else Some(acc.value + [t])
  }

  /** `handleException`: the handler is called only when it is set and the list was created. */
  function HandleException(handler: Option<HandlerRef>, topic: Topic, m: MethodRef, args: Args,
                           acc: Option<seq<Throwable>>): (call: Option<HandlerCall>)
    ensures call.Some? <==> handler.Some? && acc.Some?
    ensures call.Some? ==> call.value == HandlerCall(handler.value, topic, m, args, acc.value)
  {
    if handler.None? || acc.None? then None
    else Some(HandlerCall(handler.value, topic, m, args, acc.value))
  }

  /** How a publish ends: the origin's handler against the failures of the trace. */
  function Report(handler: Option<HandlerRef>, topic: Topic, m: MethodRef, args: Args,
                  trace: seq<Invocation>, outcome: Oracle): Option<HandlerCall>
  {
    HandleException(handler, topic, m, args, Lazy(Failures(trace, m, args, outcome)))
  }

  /**
   * The handler is called exactly once, with every failure in invocation order,
   * if and only if a handler is set and at least one invocation failed.
   */
  lemma ReportedExactlyWhenFailed(handler: Option<HandlerRef>, topic: Topic, m: MethodRef, args: Args,
                                  trace: seq<Invocation>, outcome: Oracle)
    ensures Report(handler, topic, m, args, trace, outcome).Some?
            <==> handler.Some? && exists k :: 0 <= k < |trace| && outcome(trace[k].subscriber, m, args).Some?
    ensures Report(handler, topic, m, args, trace, outcome).Some? ==>
            Report(handler, topic, m, args, trace, outcome).value
            == HandlerCall(handler.value, topic, m, args, Failures(trace, m, args, outcome))
  {
    FailuresEmpty(trace, m, args, outcome);
  }

  // ---------------------------------------------------------------------------
  // The buses each handler class visits

  /** The buses a publish at `origin` visits, in order, for each handler class. */
  function Visited(nodes: seq<Node>, s: Strategy, origin: BusId): (buses: seq<BusId>)
    requires TreeShaped(nodes) && origin < |nodes|
    ensures buses != [] && buses[0] == origin
  {
    match s
    case LocalPublisher => [origin]
    case ToChildrenPublisher => BfsStartsAtOrigin(nodes, origin); Bfs(nodes, [origin])
    case ToDirectChildrenPublisher => [origin] + nodes[origin].children
    case ToParentPublisher => AncestorChain(nodes, origin)
  }

  /** The invocation trace a publish at `origin` is specified to produce. */
  function Expected(nodes: seq<Node>, s: Strategy, origin: BusId, topic: Topic): seq<Invocation>
    requires TreeShaped(nodes) && origin < |nodes|
  {
    Invocations(nodes, Visited(nodes, s, origin), topic)
  }

  /** NONE invokes exactly the origin's list, in list order. */
  lemma LocalInvokesOriginOnly(nodes: seq<Node>, origin: BusId, topic: Topic)
    requires TreeShaped(nodes) && origin < |nodes|
    ensures Expected(nodes, LocalPublisher, origin, topic) == InvocationsAt(origin, ListAt(nodes, origin, topic))
  {
    assert [origin][1..] == [];
    assert Invocations(nodes, [origin], topic)
           == InvocationsAt(origin, ListAt(nodes, origin, topic)) + Invocations(nodes, [], topic);
    assert InvocationsAt(origin, ListAt(nodes, origin, topic)) + [] == InvocationsAt(origin, ListAt(nodes, origin, topic));
  }

  /**
   * TO_CHILDREN invokes each registration at the origin and at every
   * descendant exactly once, and nothing at any other bus.
   */
  lemma ToChildrenInvokesSubtreeOnce(nodes: seq<Node>, origin: BusId, topic: Topic, x: Invocation)
    requires TreeShaped(nodes) && origin < |nodes|
    ensures multiset(Expected(nodes, ToChildrenPublisher, origin, topic))[x]
            == if x.bus < |nodes| && InSubtree(nodes, origin, x.bus)
               then multiset(ListAt(nodes, x.bus, topic))[x.subscriber] else 0
  {
    var order := Bfs(nodes, [origin]);
    assert Expected(nodes, ToChildrenPublisher, origin, topic) == Invocations(nodes, order, topic);
    SubtreeVisitedOnce(nodes, origin, x.bus);
    InvocationsOfDistinct(nodes, order, topic, x);
  }

  predicate Distinct(s: seq<BusId>)
  {
    forall i, j :: 0 <= i < j < |s| ==> s[i] != s[j]
  }

  /** A bus occurs at most once in a sequence without repetitions. */
  lemma {:induction false} CountInDistinct(s: seq<BusId>, b: BusId)
    requires Distinct(s)
    ensures multiset(s)[b] == if b in s then 1 else 0
  {
    if s != [] {
      assert s == [s[0]] + s[1..];
      CountInDistinct(s[1..], b);
      if s[0] == b {
        forall j | 0 <= j < |s[1..]| ensures s[1..][j] != b {
          assert s[0] != s[j + 1];
        }
      }
    }
  }

  /**
   * TO_DIRECT_CHILDREN visits the origin and then its children, nothing deeper:
   * a bus is visited exactly when it is the origin or its parent is the origin.
   */
  lemma DirectChildrenVisitedOnce(nodes: seq<Node>, origin: BusId, b: BusId)
    requires TreeShaped(nodes) && origin < |nodes|
    ensures multiset(Visited(nodes, ToDirectChildrenPublisher, origin))[b]
            == if b == origin || (b < |nodes| && nodes[b].parent == Some(origin)) then 1 else 0
  {
    var cs := nodes[origin].children;
    var buses := [origin] + cs;
    assert Visited(nodes, ToDirectChildrenPublisher, origin) == buses;
    forall i, j | 0 <= i < j < |buses| ensures buses[i] != buses[j] {
      if i == 0 {
        assert nodes[cs[j - 1]].parent == Some(origin);
      } else {
        assert cs[i - 1] < cs[j - 1];
      }
    }
    CountInDistinct(buses, b);
    assert b in buses <==> b == origin || b in cs;
    if b < |nodes| && nodes[b].parent == Some(origin) {
      assert b in cs;
    }
  }

  /** TO_DIRECT_CHILDREN invokes each registration at the origin and its children once. */
  lemma ToDirectChildrenInvokesOnce(nodes: seq<Node>, origin: BusId, topic: Topic, x: Invocation)
    requires TreeShaped(nodes) && origin < |nodes|
    ensures multiset(Expected(nodes, ToDirectChildrenPublisher, origin, topic))[x]
            == if x.bus == origin || (x.bus < |nodes| && nodes[x.bus].parent == Some(origin))
               then multiset(ListAt(nodes, x.bus, topic))[x.subscriber] else 0
  {
    var buses := Visited(nodes, ToDirectChildrenPublisher, origin);
    DirectChildrenVisitedOnce(nodes, origin, x.bus);
    InvocationsOfDistinct(nodes, buses, topic, x);
  }

  /**
   * TO_PARENT, as specified, invokes each registration at the origin and at
   * every ancestor exactly once, and nothing at any other bus (in particular
   * no descendant), whether or not each bus has a list for the topic.
   */
  lemma ToParentInvokesChainOnce(nodes: seq<Node>, origin: BusId, topic: Topic, x: Invocation)
    requires TreeShaped(nodes) && origin < |nodes|
    ensures multiset(Expected(nodes, ToParentPublisher, origin, topic))[x]
            == if x.bus < |nodes| && InSubtree(nodes, x.bus, origin)
               then multiset(ListAt(nodes, x.bus, topic))[x.subscriber] else 0
  {
    var chain := AncestorChain(nodes, origin);
    assert Expected(nodes, ToParentPublisher, origin, topic) == Invocations(nodes, chain, topic);
    CountInDistinct(chain, x.bus);
    InvocationsOfDistinct(nodes, chain, topic, x);
    AncestorChainExact(nodes, origin, x.bus);
  }

  // ---------------------------------------------------------------------------
  // The TO_PARENT loop as written

  /**
   * One pass of the TO_PARENT do/while loop, as far as its loop variable goes:
   * a bus without a list for the topic hits `continue`, which jumps to the loop
   * test without moving to the parent.
   */
  function ToParentStep(nodes: seq<Node>, topic: Topic, bus: BusId): (next: Option<BusId>)
    requires TreeShaped(nodes) && bus < |nodes|
    ensures next.Some? ==> next.value < |nodes|
  {
    if topic !in nodes[bus].subscribers then Some(bus) else nodes[bus].parent
  }

  /** The loop variable after `k` passes (None once the loop has left the root). */
  function ToParentAfter(nodes: seq<Node>, topic: Topic, bus: Option<BusId>, k: nat): (r: Option<BusId>)
    requires TreeShaped(nodes) && (bus.Some? ==> bus.value < |nodes|)
    ensures r.Some? ==> r.value < |nodes|
    decreases k
  {
    if k == 0 || bus.None? then bus
    else ToParentAfter(nodes, topic, ToParentStep(nodes, topic, bus.value), k - 1)
  }

  /** Every bus on the chain from `origin` to the root has a list for `topic`. */
  predicate ChainHasLists(nodes: seq<Node>, origin: BusId, topic: Topic)
    requires TreeShaped(nodes) && origin < |nodes|
    decreases origin
  {
    && topic in nodes[origin].subscribers
    && (nodes[origin].parent.Some? ==> ChainHasLists(nodes, nodes[origin].parent.value, topic))
  }

  /** The recursive definition says the same as "every bus of the ancestor chain has a list". */
  lemma {:induction false} ChainHasListsExact(nodes: seq<Node>, origin: BusId, topic: Topic)
    requires TreeShaped(nodes) && origin < |nodes|
    ensures ChainHasLists(nodes, origin, topic)
            <==> forall a :: a in AncestorChain(nodes, origin) ==> topic in nodes[a].subscribers
    decreases origin
  {
    if nodes[origin].parent.Some? {
      var p := nodes[origin].parent.value;
      ChainHasListsExact(nodes, p, topic);
      assert AncestorChain(nodes, origin) == [origin] + AncestorChain(nodes, p);
    }
  }

  /**
   * One pass of the TO_CHILDREN loop keeps "done so far, then the rest of the
   * traversal" equal to the whole trace: when the traversal is `b` followed by
   * `rest`, the invocations at `b` move from the rest to the done part.
   */
  lemma ToChildrenStep(nodes: seq<Node>, b: BusId, rest: seq<BusId>, order: seq<BusId>, topic: Topic,
                       done: seq<Invocation>, goal: seq<Invocation>)
    requires order == [b] + rest
    requires done + Invocations(nodes, order, topic) == goal
    ensures (done + InvocationsAt(b, ListAt(nodes, b, topic))) + Invocations(nodes, rest, topic) == goal
  {
    InvocationsCons(nodes, b, rest, topic);
    var here := InvocationsAt(b, ListAt(nodes, b, topic));
    var tail := Invocations(nodes, rest, topic);
    assert done + (here + tail) == (done + here) + tail;
  }

  /** One pass of the TO_DIRECT_CHILDREN loop adds the invocations at the next child. */
  lemma DirectChildStep(nodes: seq<Node>, origin: BusId, j: nat, topic: Topic)
    requires origin < |nodes| && j < |nodes[origin].children|
    ensures Invocations(nodes, [origin] + nodes[origin].children[..j + 1], topic)
            == Invocations(nodes, [origin] + nodes[origin].children[..j], topic)
               + InvocationsAt(nodes[origin].children[j], ListAt(nodes, nodes[origin].children[j], topic))
  {
    var cs := nodes[origin].children;
    assert [origin] + cs[..j + 1] == ([origin] + cs[..j]) + [cs[j]];
    InvocationsAppend(nodes, [origin] + cs[..j], [cs[j]], topic);
    InvocationsCons(nodes, cs[j], [], topic);
  }

  /**
   * One pass of the TO_PARENT loop at a bus that has a list: its invocations
   * are done and the rest of the chain above it remains.
   */
  lemma ToParentPass(nodes: seq<Node>, b: BusId, topic: Topic, done: seq<Invocation>, goal: seq<Invocation>)
    requires TreeShaped(nodes) && b < |nodes|
    requires done + Invocations(nodes, AncestorChain(nodes, b), topic) == goal
    ensures nodes[b].parent.Some? ==>
              (done + InvocationsAt(b, ListAt(nodes, b, topic)))
              + Invocations(nodes, AncestorChain(nodes, nodes[b].parent.value), topic) == goal
    ensures nodes[b].parent.None? ==> done + InvocationsAt(b, ListAt(nodes, b, topic)) == goal
  {
    ParentChainStep(nodes, b, topic);
    var here := InvocationsAt(b, ListAt(nodes, b, topic));
    if nodes[b].parent.Some? {
      var rest := Invocations(nodes, AncestorChain(nodes, nodes[b].parent.value), topic);
      assert done + (here + rest) == (done + here) + rest;
    }
  }

  /** One step up the chain: the bus's invocations, then the rest of the chain above it. */
  lemma ParentChainStep(nodes: seq<Node>, b: BusId, topic: Topic)
    requires TreeShaped(nodes) && b < |nodes|
    ensures nodes[b].parent.Some? ==>
              Invocations(nodes, AncestorChain(nodes, b), topic)
              == InvocationsAt(b, ListAt(nodes, b, topic))
                 + Invocations(nodes, AncestorChain(nodes, nodes[b].parent.value), topic)
    ensures nodes[b].parent.None? ==>
              Invocations(nodes, AncestorChain(nodes, b), topic) == InvocationsAt(b, ListAt(nodes, b, topic))
  {
    var above := if nodes[b].parent.Some? then AncestorChain(nodes, nodes[b].parent.value) else [];
    assert AncestorChain(nodes, b) == [b] + above;
    InvocationsCons(nodes, b, above, topic);
    assert Invocations(nodes, [], topic) == [];
    assert InvocationsAt(b, ListAt(nodes, b, topic)) + [] == InvocationsAt(b, ListAt(nodes, b, topic));
  }

  lemma {:induction false} ToParentStuck(nodes: seq<Node>, topic: Topic, b: BusId, k: nat)
    requires TreeShaped(nodes) && b < |nodes| && topic !in nodes[b].subscribers
    ensures ToParentAfter(nodes, topic, Some(b), k) == Some(b)
  {
    if k > 0 {
      ToParentStuck(nodes, topic, b, k - 1);
    }
  }

  /**
   * As written, the TO_PARENT loop never ends when some bus on the chain lacks
   * a list for the topic: after any number of passes it still holds a bus.
   */
  lemma {:induction false} ToParentNeverEnds(nodes: seq<Node>, topic: Topic, origin: BusId, k: nat)
    requires TreeShaped(nodes) && origin < |nodes|
    requires !ChainHasLists(nodes, origin, topic)
    ensures ToParentAfter(nodes, topic, Some(origin), k).Some?
    decreases origin
  {
    if topic !in nodes[origin].subscribers {
      ToParentStuck(nodes, topic, origin, k);
    } else if k > 0 {
      var p := nodes[origin].parent.value;
      ToParentNeverEnds(nodes, topic, p, k - 1);
    }
  }

  /** When every bus on the chain has a list, the loop leaves the root after one pass per chain bus. */
  lemma {:induction false} ToParentEnds(nodes: seq<Node>, topic: Topic, origin: BusId)
    requires TreeShaped(nodes) && origin < |nodes|
    requires ChainHasLists(nodes, origin, topic)
    ensures ToParentAfter(nodes, topic, Some(origin), |AncestorChain(nodes, origin)|) == None
    decreases origin
  {
    if nodes[origin].parent.Some? {
      var p := nodes[origin].parent.value;
      assert AncestorChain(nodes, origin) == [origin] + AncestorChain(nodes, p);
      ToParentEnds(nodes, topic, p);
    }
  }

  /** The evidently intended pass: the list (if any) is handled, then the loop always moves up. */
  function FixedToParentAfter(nodes: seq<Node>, bus: Option<BusId>, k: nat): (r: Option<BusId>)
    requires TreeShaped(nodes) && (bus.Some? ==> bus.value < |nodes|)
    ensures r.Some? ==> r.value < |nodes|
    decreases k
  {
    if k == 0 || bus.None? then bus
    else FixedToParentAfter(nodes, nodes[bus.value].parent, k - 1)
  }

  /**
   * With the step to the parent taken on every pass, the loop holds the `k`-th
   * bus of the ancestor chain after `k` passes and has left the root after one
   * pass per chain bus, whatever lists the buses have.
   */
  lemma {:induction false} FixedToParentVisitsChain(nodes: seq<Node>, origin: BusId, k: nat)
    requires TreeShaped(nodes) && origin < |nodes|
    ensures k < |AncestorChain(nodes, origin)| ==>
              FixedToParentAfter(nodes, Some(origin), k) == Some(AncestorChain(nodes, origin)[k])
    ensures k >= |AncestorChain(nodes, origin)| ==> FixedToParentAfter(nodes, Some(origin), k) == None
    decreases origin
  {
    if k > 0 {
      if nodes[origin].parent.Some? {
        var p := nodes[origin].parent.value;
        assert AncestorChain(nodes, origin) == [origin] + AncestorChain(nodes, p);
        FixedToParentVisitsChain(nodes, p, k - 1);
      } else {
        assert AncestorChain(nodes, origin) == [origin];
        if k > 1 {
          assert FixedToParentAfter(nodes, None, k - 1) == None;
        }
      }
    }
  }

  // ---------------------------------------------------------------------------
  // A publish reads only parents, children and registries

  lemma {:induction false} InvocationsSameRouting(a: seq<Node>, b: seq<Node>, buses: seq<BusId>, topic: Topic)
    requires SameRouting(a, b)
    ensures Invocations(a, buses, topic) == Invocations(b, buses, topic)
  {
    if buses != [] {
      assert ListAt(a, buses[0], topic) == ListAt(b, buses[0], topic);
      InvocationsSameRouting(a, b, buses[1..], topic);
    }
  }

  /**
   * Two arenas that agree on parents, children and registries specify the same
   * trace for every publish: the publisher cache plays no part in who is invoked.
   */
  lemma ExpectedSameRouting(a: seq<Node>, b: seq<Node>, s: Strategy, origin: BusId, topic: Topic)
    requires SameRouting(a, b) && TreeShaped(a) && origin < |a|
    ensures TreeShaped(b) && Expected(a, s, origin, topic) == Expected(b, s, origin, topic)
  {
    SameRoutingTreeShaped(a, b);
    match s {
      case LocalPublisher =>
      case ToChildrenPublisher => BfsSameRouting(a, b, [origin]);
      case ToDirectChildrenPublisher => assert a[origin].children == b[origin].children;
      case ToParentPublisher => AncestorChainSameRouting(a, b, origin);
    }
    assert Visited(a, s, origin) == Visited(b, s, origin);
    InvocationsSameRouting(a, b, Visited(a, s, origin), topic);
  }

  /** The TO_PARENT precondition reads only parents and registries. */
  lemma {:induction false} ChainHasListsSameRouting(a: seq<Node>, b: seq<Node>, origin: BusId, topic: Topic)
    requires SameRouting(a, b) && TreeShaped(a) && TreeShaped(b) && origin < |a|
    ensures ChainHasLists(a, origin, topic) <==> ChainHasLists(b, origin, topic)
    decreases origin
  {
    if a[origin].parent.Some? {
      ChainHasListsSameRouting(a, b, a[origin].parent.value, topic);
    }
  }
}
