/**
 * One bus's subscriber registry: a map from topic to the ordered list of
 * subscribers registered for it, with list append on subscribe and
 * first-occurrence removal on unsubscribe.
 */
module Registry {
  import opened Topics

  /** An opaque subscriber object; subscribers compare by value (Java `equals`). */
  datatype Subscriber = Subscriber(id: nat)

  type SubscriberMap = map<Topic, seq<Subscriber>>

  /** The list registered for `topic`, or the empty list when there is none. */
  function Lookup(reg: SubscriberMap, topic: Topic): (list: seq<Subscriber>)
    ensures topic !in reg ==> list == []
  {
    if topic in reg then reg[topic] else []
  }

  /** `List.indexOf`: the position of the first element equal to `x`, or -1. */
  function IndexOf(list: seq<Subscriber>, x: Subscriber): (i: int)
    ensures -1 <= i < |list|
    ensures i == -1 <==> x !in list
    ensures i >= 0 ==> list[i] == x && x !in list[..i]
  {
    if list == [] then -1
    else if list[0] == x then 0
    else
      var j := IndexOf(list[1..], x);
      if j < 0 then -1
      else
        assert list[..j + 1] == [list[0]] + list[1..][..j];
        j + 1
  }

  /**
   * `List.remove(Object)`: drops the first element equal to `x`, keeping the
   * order of the rest; the list is unchanged when `x` does not occur.
   */
  function RemoveFirst(list: seq<Subscriber>, x: Subscriber): (r: seq<Subscriber>)
    ensures x !in list ==> r == list
    ensures x in list ==> exists i :: 0 <= i < |list| && list[i] == x && x !in list[..i] && r == list[..i] + list[i + 1..]
    ensures multiset(r) == multiset(list) - multiset{x}
  {
    var i := IndexOf(list, x);
    if i < 0 then list
    else
      assert list == list[..i] + [x] + list[i + 1..];
      list[..i] + list[i + 1..]
  }

  /** `subscribe`: append to the topic's list, creating it when absent. */
  function Subscribed(reg: SubscriberMap, topic: Topic, s: Subscriber): (r: SubscriberMap)
    ensures topic in r && r[topic] == Lookup(reg, topic) + [s]
    ensures forall u :: u != topic ==> (u in r <==> u in reg)
    ensures forall u :: u != topic && u in reg ==> r[u] == reg[u]
  {
    reg[topic := Lookup(reg, topic) + [s]]
  }

  /**
   * `unsubscribe`: remove the first occurrence from the topic's list; nothing
   * happens when the topic has no list, and an emptied list stays in the map.
   */
  function Unsubscribed(reg: SubscriberMap, topic: Topic, s: Subscriber): (r: SubscriberMap)
    ensures r.Keys == reg.Keys
    ensures topic in reg ==> r[topic] == RemoveFirst(reg[topic], s)
    ensures forall u :: u != topic && u in reg ==> r[u] == reg[u]
  {
    if topic in reg then reg[topic := RemoveFirst(reg[topic], s)] else reg
  }

  /** Removing a freshly appended subscriber that occurred nowhere before restores the list. */
  lemma RemoveFirstAppended(list: seq<Subscriber>, s: Subscriber)
    requires s !in list
    ensures RemoveFirst(list + [s], s) == list
  {
    var i := IndexOf(list + [s], s);
    assert (list + [s])[|list|] == s;
    assert i == |list|;
    assert (list + [s])[..|list|] == list;
  }

  /** Subscribing a new subscriber and then unsubscribing it gives back the same list. */
  lemma SubscribeUnsubscribeRoundTrip(reg: SubscriberMap, topic: Topic, s: Subscriber)
    requires s !in Lookup(reg, topic)
    ensures Lookup(Unsubscribed(Subscribed(reg, topic, s), topic, s), topic) == Lookup(reg, topic)
  {
    RemoveFirstAppended(Lookup(reg, topic), s);
  }

  /** One unsubscribe removes exactly one registration; once none remain, it is a no-op. */
  lemma UnsubscribeRemovesOne(reg: SubscriberMap, topic: Topic, s: Subscriber)
    ensures multiset(Lookup(Unsubscribed(reg, topic, s), topic))[s]
            == if multiset(Lookup(reg, topic))[s] == 0 then 0 else multiset(Lookup(reg, topic))[s] - 1
    ensures s !in Lookup(reg, topic) ==> Unsubscribed(reg, topic, s) == reg
  {
  }
}
