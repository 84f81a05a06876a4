/**
 * The buses themselves: an arena object holding every bus's fields, with the
 * bus operations as methods that update those fields in place, and the four
 * publish loops proved against the traces specified in module Dispatch.
 */
module MessageBusImpl {
  import opened Wrappers
  import opened Topics
  import opened Registry
  import opened BusTree
  import opened Dispatch

  /** Appending a fresh bus and listing it under its parent keeps the arena well formed. */
  lemma NewBusKeepsShape(before: seq<Node>, after: seq<Node>, parent: Option<BusId>, b: BusId)
    requires WellFormed(before) && b == |before| && (parent.Some? ==> parent.value < b)
    requires |after| == b + 1 && after[b] == NewNode(parent)
    requires forall i :: 0 <= i < b && parent != Some(i) ==> after[i] == before[i]
    requires parent.Some? ==> after[parent.value] == before[parent.value].(children := before[parent.value].children + [b])
    ensures WellFormed(after)
  {
    forall i | 0 <= i < |after| && after[i].parent.Some?
      ensures after[i].parent.value < i && i in after[after[i].parent.value].children
    {
      var p := after[i].parent.value;
      if i < b {
        assert after[i].parent == before[i].parent;
        assert i in before[p].children;
      }
    }
    forall i, k | 0 <= i < |after| && 0 <= k < |after[i].children|
      ensures after[i].children[k] < |after| && after[after[i].children[k]].parent == Some(i)
    {
      if parent == Some(i) && k == |after[i].children| - 1 {
        assert after[i].children[k] == b;
      } else {
        assert after[i].children[k] == before[i].children[k];
        assert after[before[i].children[k]].parent == before[before[i].children[k]].parent;
      }
    }
    forall i, k, l | 0 <= i < |after| && 0 <= k < l < |after[i].children|
      ensures after[i].children[k] < after[i].children[l]
    {
      assert after[i].children[k] == before[i].children[k];
      if parent == Some(i) && l == |after[i].children| - 1 {
      } else {
        assert after[i].children[l] == before[i].children[l];
      }
    }
    forall i | 0 <= i < |after|
      ensures CacheOwnedBy(after[i], i)
    {
      if i < b {
        assert CacheOwnedBy(before[i], i);
      }
    }
  }

  class MessageBusArena {
    /** `nodes[b]` holds the fields of bus `b`; buses are numbered in creation order. */
    var nodes: seq<Node>

    ghost predicate Valid()
      reads this
    {
      WellFormed(nodes)
    }

    /** An arena with no buses yet. */
    constructor ()
      ensures Valid() && nodes == []
    {
      nodes := [];
    }

    /**
     * `new MessageBusImpl(parent)`: the new bus gets the next number, an empty
     * registry and cache, no handler, and is appended to its parent's children.
     */
    method NewBus(parent: Option<BusId>) returns (b: BusId)
      requires Valid()
      requires parent.Some? ==> parent.value < |nodes|
      modifies this
      ensures Valid()
      ensures b == |old(nodes)| && |nodes| == b + 1
      ensures nodes[b] == NewNode(parent)
      ensures forall i :: 0 <= i < b && parent != Some(i) ==> nodes[i] == old(nodes[i])
      ensures parent.Some? ==> nodes[parent.value]
                               == old(nodes[parent.value]).(children := old(nodes[parent.value].children) + [b])
      ensures parent.None? ==> nodes == old(nodes) + [NewNode(parent)]
      ensures parent.Some? ==> nodes == old(nodes)[parent.value := old(nodes[parent.value]).(children := old(nodes[parent.value].children) + [b])]
                                        + [NewNode(parent)]
    {
      b := |nodes|;
      nodes := nodes + [NewNode(parent)];
      if parent.Some? {
        AddChild(parent.value, b);
        assert nodes == old(nodes)[parent.value := old(nodes[parent.value]).(children := old(nodes[parent.value].children) + [b])]
                        + [NewNode(parent)];
      }
      NewBusKeepsShape(old(nodes), nodes, parent, b);
    }

    /** `addChild`: appends `child` to the children of `p`. */
    method AddChild(p: BusId, child: BusId)
      requires p < |nodes|
      modifies this
      ensures nodes == old(nodes)[p := old(nodes[p]).(children := old(nodes[p].children) + [child])]
    {
      nodes := nodes[p := nodes[p].(children := nodes[p].children + [child])];
    }

    /** `getParent`: the fixed parent, which is older and lists `b` among its children. */
    function GetParent(b: BusId): (p: Option<BusId>)
      reads this
      requires Valid() && b < |nodes|
      ensures p.Some? ==> p.value < b && b in nodes[p.value].children
      ensures p.None? ==> forall i :: 0 <= i < |nodes| ==> b !in nodes[i].children
    {
      assert p_none: nodes[b].parent.None? ==> forall i :: 0 <= i < |nodes| ==> b !in nodes[i].children by {
        forall i | 0 <= i < |nodes| && b in nodes[i].children ensures nodes[b].parent.Some? {
          var k :| 0 <= k < |nodes[i].children| && nodes[i].children[k] == b;
        }
      }
      nodes[b].parent
    }

    /** `getExceptionHandler`: the handler last set on `b`, if any. */
    function GetExceptionHandler(b: BusId): Option<HandlerRef>
      reads this
      requires b < |nodes|
    {
      nodes[b].exceptionHandler
    }

    /** `setExceptionHandler`: replaces the handler of `b` only (null clears it). */
    method SetExceptionHandler(b: BusId, handler: Option<HandlerRef>)
      requires Valid() && b < |nodes|
      modifies this
      ensures Valid()
      ensures nodes == old(nodes)[b := old(nodes[b]).(exceptionHandler := handler)]
      ensures GetExceptionHandler(b) == handler
    {
      nodes := nodes[b := nodes[b].(exceptionHandler := handler)];
      SameShape(old(nodes), nodes);
    }

    /** `subscribe`: appends `s` to the list of `b` for `topic`, creating the list if absent. */
    method Subscribe(b: BusId, topic: Topic, s: Subscriber)
      requires Valid() && b < |nodes|
      modifies this
      ensures Valid()
      ensures nodes == old(nodes)[b := old(nodes[b]).(subscribers := Subscribed(old(nodes[b].subscribers), topic, s))]
      ensures ListAt(nodes, b, topic) == ListAt(old(nodes), b, topic) + [s]
    {
      nodes := nodes[b := nodes[b].(subscribers := Subscribed(nodes[b].subscribers, topic, s))];
      SameShape(old(nodes), nodes);
    }

    /** `unsubscribe`: removes the first occurrence of `s` from the list of `b` for `topic`, if any. */
    method Unsubscribe(b: BusId, topic: Topic, s: Subscriber)
      requires Valid() && b < |nodes|
      modifies this
      ensures Valid()
      ensures nodes == old(nodes)[b := old(nodes[b]).(subscribers := Unsubscribed(old(nodes[b].subscribers), topic, s))]
      ensures ListAt(nodes, b, topic) == RemoveFirst(ListAt(old(nodes), b, topic), s)
    {
      var list := nodes[b].subscribers;
      if topic in list {
        nodes := nodes[b := nodes[b].(subscribers := list[topic := RemoveFirst(list[topic], s)])];
        SameShape(old(nodes), nodes);
      }
    }

    /** `createPublisher`: a new proxy whose handler class serves the topic's direction. */
    method CreatePublisher(b: BusId, topic: Topic) returns (p: Publisher)
      ensures fresh(p)
      ensures p.bus == b && p.topic == topic && p.strategy == StrategyFor(topic.broadcastDirection)
    {
      var direction := topic.GetBroadcastDirection();
      if direction == ToChildren {
        p := new Publisher(b, topic, ToChildrenPublisher);
      } else if direction == ToParent {
        p := new Publisher(b, topic, ToParentPublisher);
      } else if direction == ToDirectChildren {
        p := new Publisher(b, topic, ToDirectChildrenPublisher);
      } else {
        p := new Publisher(b, topic, LocalPublisher);
      }
    }

    /**
     * `getPublisher`: the cached proxy of `b` for `topic`; on the first request
     * one is created and cached.
     */
    method GetPublisher(b: BusId, topic: Topic) returns (p: Publisher)
      requires Valid() && b < |nodes|
      modifies this
      ensures Valid() && |nodes| == |old(nodes)|
      ensures p.bus == b && p.topic == topic && p.strategy == StrategyFor(topic.broadcastDirection)
      ensures topic in nodes[b].publishers && nodes[b].publishers[topic] == p
      ensures topic in old(nodes[b].publishers) ==> p == old(nodes[b].publishers[topic]) && nodes == old(nodes)
      ensures topic !in old(nodes[b].publishers) ==>
                fresh(p) && nodes == old(nodes)[b := old(nodes[b]).(publishers := old(nodes[b].publishers)[topic := p])]
    {
      if topic in nodes[b].publishers {
        p := nodes[b].publishers[topic];
      } else {
        p := CreatePublisher(b, topic);
        CacheKeepsShape(nodes, b, topic, p);
        nodes := nodes[b := nodes[b].(publishers := nodes[b].publishers[topic := p])];
      }
    }

    /** Asking twice for the same bus and topic yields the identical proxy. */
    method GetPublisherTwice(b: BusId, topic: Topic) returns (p1: Publisher, p2: Publisher)
      requires Valid() && b < |nodes|
      modifies this
      ensures Valid()
      ensures p1 == p2
    {
      p1 := GetPublisher(b, topic);
      p2 := GetPublisher(b, topic);
    }

    // -------------------------------------------------------------------------
    // Publishing

    /**
     * The loop every publisher runs over one bus's list: invoke each subscriber
     * in list order, catching every failure into the lazily created list.
     */
    method InvokeEach(b: BusId, list: seq<Subscriber>, m: MethodRef, args: Args, outcome: Oracle,
                      acc0: Option<seq<Throwable>>, ghost before: seq<Throwable>)
      returns (trace: seq<Invocation>, acc: Option<seq<Throwable>>)
      requires acc0 == Lazy(before)
      ensures trace == InvocationsAt(b, list)
      ensures acc == Lazy(before + Failures(trace, m, args, outcome))
    {
      trace := [];
      acc := acc0;
      assert before + Failures(trace, m, args, outcome) == before;
      var i := 0;
      while i < |list|
        invariant 0 <= i <= |list|
        invariant trace == InvocationsAt(b, list[..i])
        invariant acc == Lazy(before + Failures(trace, m, args, outcome))
      {
        var subscriber := list[i];
        var thrown := outcome(subscriber, m, args);
        FailuresAppend(trace, [Invocation(b, subscriber)], m, args, outcome);
        InvocationsAtAppend(b, list[..i], subscriber);
        assert list[..i + 1] == list[..i] + [subscriber];
        assert [Invocation(b, subscriber)][1..] == [];
        assert Failures([Invocation(b, subscriber)], m, args, outcome) == if thrown.Some? then [thrown.value] else [];
        ghost var sofar := before + Failures(trace, m, args, outcome);
        trace := trace + [Invocation(b, subscriber)];
        if thrown.Some? {
          assert Collected(acc) == sofar;
          acc := HandleThrowable(thrown.value, acc);
          assert before + Failures(trace, m, args, outcome) == sofar + [thrown.value];
        } else {
          assert before + Failures(trace, m, args, outcome) == sofar;
        }
        i := i + 1;
      }
      assert list[..i] == list;
    }

    /** MessagePublisher.publish (NONE): the origin's own list only. */
    method PublishLocal(origin: BusId, topic: Topic, m: MethodRef, args: Args, outcome: Oracle)
      returns (trace: seq<Invocation>, handled: Option<HandlerCall>)
      requires Valid() && origin < |nodes|
      ensures trace == Expected(nodes, LocalPublisher, origin, topic)
      ensures handled == Report(nodes[origin].exceptionHandler, topic, m, args, trace, outcome)
    {
      LocalInvokesOriginOnly(nodes, origin, topic);
      if topic !in nodes[origin].subscribers {
        return [], None;
      }
      var acc;
      trace, acc := InvokeEach(origin, nodes[origin].subscribers[topic], m, args, outcome, None, []);
      assert [] + Failures(trace, m, args, outcome) == Failures(trace, m, args, outcome);
      handled := HandleException(nodes[origin].exceptionHandler, topic, m, args, acc);
    }

    /**
     * ToChildrenMessagePublisher.publish: poll buses from a queue seeded with the
     * origin, enqueue each polled bus's children, invoke its list if it has one.
     */
    method PublishToChildren(origin: BusId, topic: Topic, m: MethodRef, args: Args, outcome: Oracle)
      returns (trace: seq<Invocation>, handled: Option<HandlerCall>)
      requires Valid() && origin < |nodes|
      ensures trace == Expected(nodes, ToChildrenPublisher, origin, topic)
      ensures handled == Report(nodes[origin].exceptionHandler, topic, m, args, trace, outcome)
    {
      ghost var goal := Expected(nodes, ToChildrenPublisher, origin, topic);
      assert goal == Invocations(nodes, Bfs(nodes, [origin]), topic);
      var queue: seq<BusId> := [origin];
      var acc: Option<seq<Throwable>> := None;
      trace := [];
      while queue != []
        invariant AllBuses(nodes, queue)
        invariant trace + Invocations(nodes, Bfs(nodes, queue), topic) == goal
        invariant acc == Lazy(Failures(trace, m, args, outcome))
        decreases Weight(nodes, queue)
      {
        var bus := queue[0];
        BfsUnfold(nodes, queue);
        ToChildrenStep(nodes, bus, Bfs(nodes, queue[1..] + nodes[bus].children), Bfs(nodes, queue), topic, trace, goal);
        queue := queue[1..];
        queue := queue + nodes[bus].children;
        if topic !in nodes[bus].subscribers {
          assert trace + InvocationsAt(bus, ListAt(nodes, bus, topic)) == trace;
          continue;
        }
        var here, acc' := InvokeEach(bus, nodes[bus].subscribers[topic], m, args, outcome, acc, Failures(trace, m, args, outcome));
        FailuresAppend(trace, here, m, args, outcome);
        trace, acc := trace + here, acc';
      }
      handled := HandleException(nodes[origin].exceptionHandler, topic, m, args, acc);
    }

    /**
     * ToDirectChildrenMessagePublisher.publish: the origin's list, then the list
     * of each child in `children` order.
     */
    method PublishToDirectChildren(origin: BusId, topic: Topic, m: MethodRef, args: Args, outcome: Oracle)
      returns (trace: seq<Invocation>, handled: Option<HandlerCall>)
      requires Valid() && origin < |nodes|
      ensures trace == Expected(nodes, ToDirectChildrenPublisher, origin, topic)
      ensures handled == Report(nodes[origin].exceptionHandler, topic, m, args, trace, outcome)
    {
      var acc: Option<seq<Throwable>> := None;
      trace := [];
      if topic in nodes[origin].subscribers {
        trace, acc := InvokeEach(origin, nodes[origin].subscribers[topic], m, args, outcome, None, []);
        assert [] + Failures(trace, m, args, outcome) == Failures(trace, m, args, outcome);
      }
      var children := nodes[origin].children;
      InvocationsCons(nodes, origin, [], topic);
      assert [origin] + children[..0] == [origin];
      var j := 0;
      while j < |children|
        invariant 0 <= j <= |children|
        invariant trace == Invocations(nodes, [origin] + children[..j], topic)
        invariant acc == Lazy(Failures(trace, m, args, outcome))
      {
        var bus := children[j];
        DirectChildStep(nodes, origin, j, topic);
        j := j + 1;
        if topic !in nodes[bus].subscribers {
          assert trace + InvocationsAt(bus, ListAt(nodes, bus, topic)) == trace;
          continue;
        }
        var here, acc' := InvokeEach(bus, nodes[bus].subscribers[topic], m, args, outcome, acc, Failures(trace, m, args, outcome));
        FailuresAppend(trace, here, m, args, outcome);
        trace, acc := trace + here, acc';
      }
      assert children[..j] == children;
      assert Expected(nodes, ToDirectChildrenPublisher, origin, topic) == Invocations(nodes, [origin] + children, topic);
      handled := HandleException(nodes[origin].exceptionHandler, topic, m, args, acc);
    }

    /**
     * ToParentMessagePublisher.publish, as written: a do/while climbing from the
     * origin to the root. A bus without a list hits `continue`, which skips the
     * step to the parent, so the loop only ends when every bus on the chain has
     * a list for the topic (see Dispatch.ToParentNeverEnds); that is required here.
     */
    method PublishToParent(origin: BusId, topic: Topic, m: MethodRef, args: Args, outcome: Oracle)
      returns (trace: seq<Invocation>, handled: Option<HandlerCall>)
      requires Valid() && origin < |nodes|
      requires ChainHasLists(nodes, origin, topic)
      ensures trace == Expected(nodes, ToParentPublisher, origin, topic)
      ensures handled == Report(nodes[origin].exceptionHandler, topic, m, args, trace, outcome)
    {
      ghost var goal := Expected(nodes, ToParentPublisher, origin, topic);
      assert goal == Invocations(nodes, AncestorChain(nodes, origin), topic);
      var bus: Option<BusId> := Some(origin);
      var acc: Option<seq<Throwable>> := None;
      trace := [];
      while bus.Some?
        invariant bus.Some? ==> bus.value < |nodes| && ChainHasLists(nodes, bus.value, topic)
        invariant bus.Some? ==> trace + Invocations(nodes, AncestorChain(nodes, bus.value), topic) == goal
        invariant bus.None? ==> trace == goal
        invariant acc == Lazy(Failures(trace, m, args, outcome))
        decreases if bus.Some? then bus.value + 1 else 0
      {
        var current := bus.value;
        ToParentPass(nodes, current, topic, trace, goal);
        if topic !in nodes[current].subscribers {
          continue;
        }
        var here, acc' := InvokeEach(current, nodes[current].subscribers[topic], m, args, outcome, acc, Failures(trace, m, args, outcome));
        FailuresAppend(trace, here, m, args, outcome);
        trace, acc := trace + here, acc';
        bus := GetParent(current);
      }
      handled := HandleException(nodes[origin].exceptionHandler, topic, m, args, acc);
    }

    /**
     * The TO_PARENT publish as evidently intended: a bus without a list is
     * skipped but the loop still moves to the parent, so it ends for every
     * arena and reaches the whole ancestor chain.
     */
    method PublishToParentFixed(origin: BusId, topic: Topic, m: MethodRef, args: Args, outcome: Oracle)
      returns (trace: seq<Invocation>, handled: Option<HandlerCall>)
      requires Valid() && origin < |nodes|
      ensures trace == Expected(nodes, ToParentPublisher, origin, topic)
      ensures handled == Report(nodes[origin].exceptionHandler, topic, m, args, trace, outcome)
    {
      ghost var goal := Expected(nodes, ToParentPublisher, origin, topic);
      assert goal == Invocations(nodes, AncestorChain(nodes, origin), topic);
      var bus: Option<BusId> := Some(origin);
      var acc: Option<seq<Throwable>> := None;
      trace := [];
      while bus.Some?
        invariant bus.Some? ==> bus.value < |nodes|
        invariant bus.Some? ==> trace + Invocations(nodes, AncestorChain(nodes, bus.value), topic) == goal
        invariant bus.None? ==> trace == goal
        invariant acc == Lazy(Failures(trace, m, args, outcome))
        decreases if bus.Some? then bus.value + 1 else 0
      {
        var current := bus.value;
        ToParentPass(nodes, current, topic, trace, goal);
        if topic in nodes[current].subscribers {
          var here, acc' := InvokeEach(current, nodes[current].subscribers[topic], m, args, outcome, acc, Failures(trace, m, args, outcome));
          FailuresAppend(trace, here, m, args, outcome);
          trace, acc := trace + here, acc';
        } else {
          assert trace + InvocationsAt(current, ListAt(nodes, current, topic)) == trace;
        }
        bus := GetParent(current);
      }
      handled := HandleException(nodes[origin].exceptionHandler, topic, m, args, acc);
    }

    /**
     * The proxy's `invoke` for a subscriber-interface method: run the publish of
     * the proxy's handler class on the proxy's bus and topic.
     */
    method Invoke(p: Publisher, m: MethodRef, args: Args, outcome: Oracle)
      returns (trace: seq<Invocation>, handled: Option<HandlerCall>)
      requires Valid() && p.bus < |nodes|
      requires p.strategy == ToParentPublisher ==> ChainHasLists(nodes, p.bus, p.topic)
      ensures trace == Expected(nodes, p.strategy, p.bus, p.topic)
      ensures handled == Report(nodes[p.bus].exceptionHandler, p.topic, m, args, trace, outcome)
    {
      match p.strategy
      case LocalPublisher =>
        trace, handled := PublishLocal(p.bus, p.topic, m, args, outcome);
      case ToChildrenPublisher =>
        trace, handled := PublishToChildren(p.bus, p.topic, m, args, outcome);
      case ToDirectChildrenPublisher =>
        trace, handled := PublishToDirectChildren(p.bus, p.topic, m, args, outcome);
      case ToParentPublisher =>
        trace, handled := PublishToParent(p.bus, p.topic, m, args, outcome);
    }
  }
}
