# messagebus in Dafny

This project models the core of `messagebus`, an in-process, hierarchical publish/subscribe bus, and proves properties of that model.

- Buses form a tree. Each bus has a fixed parent, an ordered list of children, and a registry that maps each topic to an ordered list of subscribers. It also has a lazily filled cache of publisher proxies and an optional exception handler.
- A topic is an immutable triple: name, subscriber class and broadcast direction.
- Calling a method on a topic's publisher invokes that method on the subscribers of one bus or of several, depending on the direction:
  - NONE: the bus itself.
  - TO_CHILDREN: the whole subtree, breadth first.
  - TO_DIRECT_CHILDREN: the bus and its immediate children.
  - TO_PARENT: the bus and its ancestors.
- Failures are caught and collected. If a handler is set and at least one invocation failed, the bus's handler is then called once with all of them.

The modules follow the two core classes:

- `Topics` (`topic.dfy`) is `Topic.java`. The topic is a datatype. The three constructors are functions, and equality and hashing are modelled from the source.
- `Registry` (`registry.dfy`) is one bus's topic-to-subscriber-list map. It models `subscribe` (append, creating the list) and `unsubscribe` (`List.remove`: the first equal element only).
- `BusTree` (`bus_tree.dfy`) holds the tree invariant, the publisher-handler choice, and the three traversal orders as specification functions:
  - `AncestorChain`, the parent chain;
  - `Bfs`, the breadth-first order of a queue, proved to visit level by level (by `Depth`, the distance from the root) with each bus's children in `children` order;
  - for TO_DIRECT_CHILDREN, the bus followed by its `children` list.
- `Dispatch` (`dispatch.dfy`) specifies a publish. Its result is the exact sequence of (bus, subscriber) invocations plus the single optional handler call.
  - Subscriber code is an oracle: a function that says whether invoking a subscriber throws, and what.
  - The module states the counting properties: each direction reaches each bus in scope exactly once, and none outside it.
  - It also holds the TO_PARENT loop as written, as a step function.
- `MessageBusImpl` (`message_bus_impl.dfy`) is the class `MessageBusArena`. It holds every bus's fields in `nodes`; a bus is its creation index, so a parent always has a smaller index than its children.
  - Its methods update `nodes` in place, as the Java methods update the fields of `MessageBusImpl`.
  - The four publish loops are proved equal to the `Dispatch` specification.
- `Scenarios` (`scenarios.dfy`) replays the repository's direction test through the arena: it builds the five-bus chain with `NewBus` and `Subscribe`, asks bus 2 for the topic's publisher and invokes it, for each direction. It also gives a concrete bus tree on which TO_PARENT as written never ends.

TO_PARENT is meant to climb from the bus to the root, stopping when the parent is null. The code's `do`/`while` loop does so only when every bus on the way has a subscriber list for the topic. At a bus without one, `continue` jumps to the loop test without moving to the parent, so the loop never ends. The model follows the code: `PublishToParent` requires every bus on the chain to have a list, and the behaviour without that precondition is the finding below. `PublishToParentFixed` is the evidently intended loop.

## Model

| member | source | states |
|---|---|---|
| Topics.NewTopic | src/main/java/com/github/mouse0w0/messagebus/Topic.java:23-39 | the getters return exactly the name, class and direction the topic was built with |
| Topics.NamedTopic | src/main/java/com/github/mouse0w0/messagebus/Topic.java:19-21 | the two-argument constructor keeps name and class and sets the direction to TO_CHILDREN |
| Topics.TopicOf | src/main/java/com/github/mouse0w0/messagebus/Topic.java:15-17 | the one-argument constructor names the topic after the class's simple name, with direction TO_CHILDREN |
| Topics.Equals | src/main/java/com/github/mouse0w0/messagebus/Topic.java:41-51 | `equals` is true exactly when the other object is a topic with the same three fields |
| Topics.EqualsReflexiveAndTyped | src/main/java/com/github/mouse0w0/messagebus/Topic.java:43-44 | a topic equals itself; it never equals null or an object of another class |
| Topics.DirectionDistinguishesTopics | src/main/java/com/github/mouse0w0/messagebus/Topic.java:48-50 | topics that differ only in direction are unequal, so they are distinct registry keys |
| Topics.HashCode | src/main/java/com/github/mouse0w0/messagebus/Topic.java:53-59 | `hashCode` folds the name's string hash, the class's hash and the direction's hash with factor 31; what it guarantees is stated by `Topics.EqualTopicsHashAlike` |
| Topics.EqualTopicsHashAlike | src/main/java/com/github/mouse0w0/messagebus/Topic.java:53-59 | topics that `equals` relates have the same `hashCode` |
| Registry.RemoveFirst | src/main/java/com/github/mouse0w0/messagebus/MessageBusImpl.java:81 | removes the first element equal to the subscriber and keeps the order of the rest; leaves the list unchanged when the subscriber is absent; takes exactly one occurrence out of the multiset |
| Registry.Subscribed | src/main/java/com/github/mouse0w0/messagebus/MessageBusImpl.java:73-75 | the topic's list becomes the old list (empty if absent) plus the subscriber at the end, duplicates allowed; every other topic's list is unchanged |
| Registry.Unsubscribed | src/main/java/com/github/mouse0w0/messagebus/MessageBusImpl.java:77-83 | the key set is unchanged, so an emptied list stays; the topic's list loses its first equal element; other topics are unchanged; nothing happens when the topic has no list |
| Registry.RemoveFirstAppended | src/main/java/com/github/mouse0w0/messagebus/MessageBusImpl.java:74-81 | removing a subscriber just appended to a list that did not contain it gives back the list |
| Registry.SubscribeUnsubscribeRoundTrip | src/main/java/com/github/mouse0w0/messagebus/MessageBusImpl.java:73-83 | subscribing a new subscriber and then unsubscribing it restores the topic's list |
| Registry.UnsubscribeRemovesOne | src/main/java/com/github/mouse0w0/messagebus/MessageBusImpl.java:77-83 | one unsubscribe lowers that subscriber's registration count by exactly one; once the count is zero it changes nothing |
| BusTree.Publisher.constructor | src/main/java/com/github/mouse0w0/messagebus/MessageBusImpl.java:85-92 | a publisher proxy is bound for life to the bus, the topic and the handler class it is built with |
| BusTree.StrategyFor | src/main/java/com/github/mouse0w0/messagebus/MessageBusImpl.java:58-70 | the handler class chosen for a topic serves the topic's direction, with the local publisher for NONE |
| BusTree.NewNode | src/main/java/com/github/mouse0w0/messagebus/MessageBusImpl.java:10-28 | a new bus has the given parent, no children, empty registry and cache, and no handler |
| BusTree.AncestorChain | src/main/java/com/github/mouse0w0/messagebus/MessageBusImpl.java:217-231 | the chain starts at the bus and strictly descends by index through existing buses |
| BusTree.AncestorChainReachesRoot | src/main/java/com/github/mouse0w0/messagebus/MessageBusImpl.java:230-231 | the chain ends at the root: its last bus has no parent, where the climb stops |
| BusTree.AncestorChainExact | src/main/java/com/github/mouse0w0/messagebus/MessageBusImpl.java:217-231 | a bus is on the chain if and only if it is the origin or one of its ancestors |
| BusTree.Bfs | src/main/java/com/github/mouse0w0/messagebus/MessageBusImpl.java:149-166 | polling the queue and enqueuing each polled bus's children yields only existing buses |
| BusTree.BfsKeepsQueueOrder | src/main/java/com/github/mouse0w0/messagebus/MessageBusImpl.java:149-155 | the buses already queued are visited first, in queue order, before anything enqueued later |
| BusTree.ChildrenFollowOrigin | src/main/java/com/github/mouse0w0/messagebus/MessageBusImpl.java:149-155 | from a bus, the traversal visits the bus and then its children in `children` order |
| BusTree.DepthCountsAncestors | src/main/java/com/github/mouse0w0/messagebus/MessageBusImpl.java:23-28 | a bus's depth (distance from the root) is the number of its ancestors on the parent chain |
| BusTree.LevelsNext | src/main/java/com/github/mouse0w0/messagebus/MessageBusImpl.java:154-155 | one poll-and-enqueue step keeps the queue sorted by depth and within two adjacent levels, and the new head is no shallower than the polled bus |
| BusTree.BfsByLevelFrom | src/main/java/com/github/mouse0w0/messagebus/MessageBusImpl.java:152-166 | from such a queue the traversal visits buses in non-decreasing depth, none above the head's level |
| BusTree.BfsByLevel | src/main/java/com/github/mouse0w0/messagebus/MessageBusImpl.java:148-166 | TO_CHILDREN from a bus visits its subtree level by level: along the visit order depths never decrease, and no bus lies above the origin |
| BusTree.SiblingsInOrderFrom | src/main/java/com/github/mouse0w0/messagebus/MessageBusImpl.java:154-155 | for every bus the traversal reaches, its children are visited in `children` order |
| BusTree.SiblingsInOrder | src/main/java/com/github/mouse0w0/messagebus/MessageBusImpl.java:148-166 | from a bus, for every bus `q` of its subtree and `k < l`, `q`'s `k`-th child is visited exactly once, and before its `l`-th child, also visited exactly once |
| BusTree.SubtreeVisitedOnce | src/main/java/com/github/mouse0w0/messagebus/MessageBusImpl.java:148-166 | the traversal from a bus visits each bus of its subtree exactly once and no other bus, in particular no ancestor |
| BusTree.SameShape | src/main/java/com/github/mouse0w0/messagebus/MessageBusImpl.java:43-45 | changing registries or handlers keeps the tree shape and the publisher cache invariant |
| BusTree.CachingKeepsRouting | src/main/java/com/github/mouse0w0/messagebus/MessageBusImpl.java:54-56 | caching a proxy at a bus changes no bus's parent, children or registry |
| BusTree.CacheKeepsShape | src/main/java/com/github/mouse0w0/messagebus/MessageBusImpl.java:54-56 | caching a publisher made for this bus and topic keeps the cache invariant |
| Dispatch.InvocationsAt | src/main/java/com/github/mouse0w0/messagebus/MessageBusImpl.java:108-114 | one bus's list is invoked in list order, one invocation per list element |
| Dispatch.InvocationsCount | src/main/java/com/github/mouse0w0/messagebus/MessageBusImpl.java:159-165 | a subscriber registered m times at a bus that is visited v times is invoked there v·m times |
| Dispatch.Lazy | src/main/java/com/github/mouse0w0/messagebus/MessageBusImpl.java:107 | the failure list is null exactly while no failure has been caught |
| Dispatch.HandleThrowable | src/main/java/com/github/mouse0w0/messagebus/MessageBusImpl.java:119-125 | the first failure creates the list; each failure is appended at the end |
| Dispatch.HandleException | src/main/java/com/github/mouse0w0/messagebus/MessageBusImpl.java:47-50 | the handler is called if and only if one is set and the failure list exists, and it receives the topic, method, arguments and list |
| Dispatch.FailuresInOrder | src/main/java/com/github/mouse0w0/messagebus/MessageBusImpl.java:108-114 | a failure is collected right after those of earlier invocations; later invocations still run |
| Dispatch.FailuresEmpty | src/main/java/com/github/mouse0w0/messagebus/MessageBusImpl.java:107-114 | no failure is collected if and only if no invocation throws |
| Dispatch.ReportedExactlyWhenFailed | src/main/java/com/github/mouse0w0/messagebus/MessageBusImpl.java:47-50 | a publish calls the handler once, with every failure in order, if and only if a handler is set and some invocation threw |
| Dispatch.Visited | src/main/java/com/github/mouse0w0/messagebus/MessageBusImpl.java:104-234 | every direction's traversal starts at the publishing bus |
| Dispatch.ExpectedSameRouting | src/main/java/com/github/mouse0w0/messagebus/MessageBusImpl.java:104-234 | two arenas that agree on every bus's parent, children and registry specify the same trace for every direction: the publisher cache and the handlers play no part in who is invoked |
| Dispatch.LocalInvokesOriginOnly | src/main/java/com/github/mouse0w0/messagebus/MessageBusImpl.java:104-117 | NONE invokes exactly the origin's list, in order, and nothing when the origin has no list |
| Dispatch.ToChildrenInvokesSubtreeOnce | src/main/java/com/github/mouse0w0/messagebus/MessageBusImpl.java:148-169 | TO_CHILDREN makes each registration at the origin and at every descendant exactly once, and none elsewhere |
| Dispatch.DirectChildrenVisitedOnce | src/main/java/com/github/mouse0w0/messagebus/MessageBusImpl.java:179-204 | TO_DIRECT_CHILDREN visits a bus exactly once if it is the origin or a child of the origin, and otherwise never |
| Dispatch.ToDirectChildrenInvokesOnce | src/main/java/com/github/mouse0w0/messagebus/MessageBusImpl.java:179-207 | TO_DIRECT_CHILDREN makes each registration at the origin and its children exactly once, and none at grandchildren or elsewhere |
| Dispatch.ToParentInvokesChainOnce | src/main/java/com/github/mouse0w0/messagebus/MessageBusImpl.java:217-234 | TO_PARENT makes each registration at the origin and its ancestors exactly once, and none at descendants or elsewhere |
| Dispatch.ChainHasListsExact | src/main/java/com/github/mouse0w0/messagebus/MessageBusImpl.java:221-222 | the precondition "every chain bus has a list" holds if and only if each bus on the ancestor chain has a list for the topic |
| Dispatch.ToParentStep | src/main/java/com/github/mouse0w0/messagebus/MessageBusImpl.java:220-231 | one pass of the loop as written leaves the loop variable absent or a valid bus id; where it goes is stated by `Dispatch.ToParentStuck` (a bus without a list is never left) and `Dispatch.ToParentEnds` |
| Dispatch.ToParentAfter | src/main/java/com/github/mouse0w0/messagebus/MessageBusImpl.java:220-231 | the loop variable after any number of passes is null or an existing bus |
| Dispatch.ToParentStuck | src/main/java/com/github/mouse0w0/messagebus/MessageBusImpl.java:221-222 | at a bus without a list, the loop as written keeps the same bus forever |
| Dispatch.ToParentNeverEnds | src/main/java/com/github/mouse0w0/messagebus/MessageBusImpl.java:220-231 | when some bus on the chain lacks a list, the loop as written never reaches null |
| Dispatch.ToParentEnds | src/main/java/com/github/mouse0w0/messagebus/MessageBusImpl.java:220-231 | when every bus on the chain has a list, the loop as written reaches null after one pass per chain bus |
| Dispatch.FixedToParentAfter | src/main/java/com/github/mouse0w0/messagebus/MessageBusImpl.java:220-231 | with the step to the parent on every pass, the loop variable is null or an existing bus |
| Dispatch.FixedToParentVisitsChain | src/main/java/com/github/mouse0w0/messagebus/MessageBusImpl.java:217-234 | with the step to the parent on every pass, the loop holds the k-th chain bus after k passes and reaches null after the whole chain, for every arena |
| MessageBusImpl.NewBusKeepsShape | src/main/java/com/github/mouse0w0/messagebus/MessageBusImpl.java:23-32 | appending a bus under an older parent and listing it last among the parent's children keeps the arena well formed |
| MessageBusImpl.MessageBusArena.NewBus | src/main/java/com/github/mouse0w0/messagebus/MessageBusImpl.java:19-28 | the new bus takes the next index with the given parent and empty state; the parent's children gain it at the end; nothing else changes; the arena stays well formed |
| MessageBusImpl.MessageBusArena.AddChild | src/main/java/com/github/mouse0w0/messagebus/MessageBusImpl.java:30-32 | the child is appended to the parent's children and nothing else changes |
| MessageBusImpl.MessageBusArena.GetParent | src/main/java/com/github/mouse0w0/messagebus/MessageBusImpl.java:34-37 | a parent is older and lists the bus among its children; a bus without a parent is nobody's child |
| MessageBusImpl.MessageBusArena.GetExceptionHandler | src/main/java/com/github/mouse0w0/messagebus/MessageBusImpl.java:39-41 | returns the handler stored on the bus, absent when none was set; `SetExceptionHandler` ensures it returns the last handler set |
| MessageBusImpl.MessageBusArena.SetExceptionHandler | src/main/java/com/github/mouse0w0/messagebus/MessageBusImpl.java:39-45 | replaces only this bus's handler; the getter then returns it |
| MessageBusImpl.MessageBusArena.Subscribe | src/main/java/com/github/mouse0w0/messagebus/MessageBusImpl.java:72-75 | only this bus's registry changes, and its list for the topic gains the subscriber at the end |
| MessageBusImpl.MessageBusArena.Unsubscribe | src/main/java/com/github/mouse0w0/messagebus/MessageBusImpl.java:77-83 | only this bus's registry changes, and its list for the topic loses the first equal subscriber |
| MessageBusImpl.MessageBusArena.CreatePublisher | src/main/java/com/github/mouse0w0/messagebus/MessageBusImpl.java:58-70 | a new proxy bound to the bus and topic, whose handler class serves the topic's direction |
| MessageBusImpl.MessageBusArena.GetPublisher | src/main/java/com/github/mouse0w0/messagebus/MessageBusImpl.java:54-56 | returns the cached proxy when there is one and changes nothing; otherwise creates a fresh proxy, caches it and changes nothing else |
| MessageBusImpl.MessageBusArena.GetPublisherTwice | src/main/java/com/github/mouse0w0/messagebus/MessageBusImpl.java:54-56 | two requests for the same bus and topic return the identical proxy |
| MessageBusImpl.MessageBusArena.InvokeEach | src/main/java/com/github/mouse0w0/messagebus/MessageBusImpl.java:107-114 | the loop over one list invokes every subscriber in order and extends the lazily created failure list with exactly the new failures |
| MessageBusImpl.MessageBusArena.PublishLocal | src/main/java/com/github/mouse0w0/messagebus/MessageBusImpl.java:104-117 | the NONE publish produces the specified trace and handler call |
| MessageBusImpl.MessageBusArena.PublishToChildren | src/main/java/com/github/mouse0w0/messagebus/MessageBusImpl.java:148-169 | the queue loop produces the breadth-first trace and the specified handler call |
| MessageBusImpl.MessageBusArena.PublishToDirectChildren | src/main/java/com/github/mouse0w0/messagebus/MessageBusImpl.java:179-207 | the origin's list and then each child's list, in `children` order, with the specified handler call |
| MessageBusImpl.MessageBusArena.PublishToParent | src/main/java/com/github/mouse0w0/messagebus/MessageBusImpl.java:217-234 | the loop as written, given a list at every chain bus, produces the ancestor-chain trace and the specified handler call |
| MessageBusImpl.MessageBusArena.PublishToParentFixed | src/main/java/com/github/mouse0w0/messagebus/MessageBusImpl.java:217-234 | with the step to the parent taken on every pass, the loop ends for every arena with the same ancestor-chain trace and handler call |
| MessageBusImpl.MessageBusArena.Invoke | src/main/java/com/github/mouse0w0/messagebus/MessageBusImpl.java:95-102 | a call on a proxy runs the publish of its handler class on its own bus and topic |
| Scenarios.ChainGrows | src/test/java/com/github/mouse0w0/messagebus/BroadcastDirectionTest.java:30-33 | creating a bus under the last bus of a bare chain of `n` buses gives the bare chain of `n + 1` buses |
| Scenarios.AppendChainBus | src/test/java/com/github/mouse0w0/messagebus/BroadcastDirectionTest.java:30-33 | `new MessageBusImpl(last)` through the arena appends bus `n` as the child of bus `n - 1` and keeps the arena well formed |
| Scenarios.NewChainBuses | src/test/java/com/github/mouse0w0/messagebus/BroadcastDirectionTest.java:29-33 | the test's five constructor calls, through the arena, build five buses each the child of the one before, with nothing subscribed |
| Scenarios.ChainSubscribes | src/test/java/com/github/mouse0w0/messagebus/BroadcastDirectionTest.java:35-39 | subscribing subscriber `k` at bus `k` turns bus `k` into the test's bus `k` and changes no other bus |
| Scenarios.SubscribeChainBus | src/test/java/com/github/mouse0w0/messagebus/BroadcastDirectionTest.java:35-39 | the same step through the arena's `Subscribe`, keeping the arena well formed |
| Scenarios.SubscribedEnds | src/test/java/com/github/mouse0w0/messagebus/BroadcastDirectionTest.java:29-39 | the bare chain is the start of the subscriptions, and once all five buses have subscribed the arena is exactly the test's chain |
| Scenarios.SetUpChain | src/test/java/com/github/mouse0w0/messagebus/BroadcastDirectionTest.java:29-39 | the test's set-up run through the arena's `NewBus` and `Subscribe` builds a fresh arena holding exactly the chain the scenario lemmas below publish on |
| Scenarios.RunDirectionTest | src/test/java/com/github/mouse0w0/messagebus/BroadcastDirectionTest.java:20-86 | `run(direction)` through the arena (set-up, `getPublisher` at bus 2, invoke): NONE invokes bus 2 only; TO_CHILDREN buses 2, 3, 4; TO_DIRECT_CHILDREN buses 2, 3; TO_PARENT buses 2, 1, 0, in that order; and no handler is called |
| Scenarios.PublishAtMiddleLocal | src/test/java/com/github/mouse0w0/messagebus/BroadcastDirectionTest.java:44-53 | on the test's chain, NONE at bus 2 reaches bus 2 only |
| Scenarios.PublishAtMiddleToChildren | src/test/java/com/github/mouse0w0/messagebus/BroadcastDirectionTest.java:55-64 | TO_CHILDREN at bus 2 reaches buses 2, 3 and 4, in that order |
| Scenarios.PublishAtMiddleToDirectChildren | src/test/java/com/github/mouse0w0/messagebus/BroadcastDirectionTest.java:66-75 | TO_DIRECT_CHILDREN at bus 2 reaches buses 2 and 3 |
| Scenarios.PublishAtMiddleToParent | src/test/java/com/github/mouse0w0/messagebus/BroadcastDirectionTest.java:77-86 | TO_PARENT at bus 2 reaches buses 2, 1 and 0, in that order |
| Scenarios.EveryChainBusHasList | src/test/java/com/github/mouse0w0/messagebus/BroadcastDirectionTest.java:35-41 | every bus of the test subscribes, so TO_PARENT as written ends after three passes |
| Scenarios.GapChainNeverEnds | src/main/java/com/github/mouse0w0/messagebus/MessageBusImpl.java:220-231 | on the same chain without a list at bus 1, TO_PARENT from bus 2 as written never ends |

## Left out

- Reflection and dynamic proxies are not modelled: `Proxy.newProxyInstance`, `Method.invoke` and the context class loader. A proxy is a `Publisher` object that records its bus, topic and handler class. The invoked method and its arguments are opaque values. A subscriber's behaviour is the oracle's answer: whether the call throws, and what.
- `handleObjectMethod` (`toString`, `hashCode` and `equals` called on the proxy itself) concerns JVM identity only. `Invoke` models calls to subscriber-interface methods.
- Subscribers run no code against the bus. A subscriber that subscribes, unsubscribes or publishes during a publish, which would modify a list while it is being iterated, is not modelled.
- Concurrency is not modelled. The model is sequential; `ConcurrentHashMap.computeIfAbsent` and the `synchronized` `addChild` become single steps.
- `Topic.toString` is not modelled, because it is formatting only.
- Topics.HashCode: computed over unbounded integers, without Java's 32-bit `int` wrap-around. The class's and the enum constant's identity hashes are fixed stand-in numbers. The equal-topics-hash-alike property does not depend on these choices.
- Topics.StringHash: runs the `31 * h + c` polynomial over Dafny characters, which are Unicode scalar values. Java's `String.hashCode` runs it over UTF-16 code units. The two differ for names with characters outside the Basic Multilingual Plane, which Java counts as two surrogate units.
- Null topic fields are not modelled: a model topic always has a name, a subscriber class and a direction. In Java each may be null. `Topic(Class)` with a null class throws in `getSimpleName` (src/main/java/com/github/mouse0w0/messagebus/Topic.java:16). `equals` throws on a null name or class (src/main/java/com/github/mouse0w0/messagebus/Topic.java:48-49). `hashCode` throws on a null name, class or direction (src/main/java/com/github/mouse0w0/messagebus/Topic.java:55-57). So do `getPublisher` and `subscribe`, which hash the topic in their maps (src/main/java/com/github/mouse0w0/messagebus/MessageBusImpl.java:55, 74).
- Stateful subscribers are not modelled. The oracle is a fixed function of (subscriber, method, arguments). A subscriber whose outcome depends on earlier calls, so that it fails on one call and not on another or at one bus and not at another, cannot be expressed. The lambdas of the repository's direction test only set flags and never throw, so the fixed oracle covers them.
- The `MessageBus` and `MessageBusExceptionHandler` interfaces carry no logic. The handler call is returned as a value, so an exception thrown by the handler itself is not modelled.
- Buses are never discarded. A bus is its index in creation order, and a parent reference is an index.
- MessageBusImpl.MessageBusArena.PublishToParent: requires every bus on the ancestor chain to have a list for the topic. Without one, the Java loop does not end (see Findings), so there is no result to specify.
- MessageBusImpl.MessageBusArena.Invoke: requires, for a TO_PARENT proxy, the same list-at-every-chain-bus precondition, for the same reason.

## Findings

| source | as written | input that shows it | evidently intended | confidence | as-written member | corrected member |
|---|---|---|---|---|---|---|
| src/main/java/com/github/mouse0w0/messagebus/MessageBusImpl.java:220-231 | in the TO_PARENT `do`/`while`, `continue` at line 222 jumps to the loop test and skips `bus = bus.getParent()` at line 230, so at a bus without a list the loop spins forever | chain 0 -> 1 -> 2 -> 3 -> 4, each bus subscribed except bus 1; publish TO_PARENT at bus 2 | skip the bus's list but still move to the parent, reaching the root and ending after the ancestor chain | high, not executed | Dispatch.ToParentNeverEnds | MessageBusImpl.MessageBusArena.PublishToParentFixed |
