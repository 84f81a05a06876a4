/**
 * Topic identity: an immutable (name, subscriber class, broadcast direction)
 * triple with structural equality and a hash computed from the same fields.
 */
module Topics {
  import opened Wrappers

  /** The four fan-out scopes of a publish. `NoBroadcast` is the source's NONE. */
  datatype BroadcastDirection = NoBroadcast | ToChildren | ToParent | ToDirectChildren

  /**
   * A subscriber interface as a runtime class: `id` stands for the class's
   * identity (classes compare by identity), `simpleName` for its simple name.
   * A class has one simple name, so `simpleName` is determined by `id`: two
   * values with the same `id` and different names stand for no real class.
   */
  datatype SubscriberClass = SubscriberClass(id: nat, simpleName: string)

  /** A topic; its three fields are fixed when it is built. */
  datatype Topic = Topic(name: string, subscriberClass: SubscriberClass, broadcastDirection: BroadcastDirection)
  {
    function GetName(): string { name }
    function GetSubscriberClass(): SubscriberClass { subscriberClass }
    function GetBroadcastDirection(): BroadcastDirection { broadcastDirection }
  }

  /** The three-argument constructor: every field as given. */
  function NewTopic(name: string, cls: SubscriberClass, direction: BroadcastDirection): (t: Topic)
    ensures t.GetName() == name && t.GetSubscriberClass() == cls && t.GetBroadcastDirection() == direction
  {
    Topic(name, cls, direction)
  }

  /** The two-argument constructor delegates with direction TO_CHILDREN. */
  function NamedTopic(name: string, cls: SubscriberClass): (t: Topic)
    ensures t.GetName() == name && t.GetSubscriberClass() == cls
    ensures t.GetBroadcastDirection() == ToChildren
  {
    NewTopic(name, cls, ToChildren)
  }

  /** The one-argument constructor names the topic after the class's simple name. */
  function TopicOf(cls: SubscriberClass): (t: Topic)
    ensures t.GetName() == cls.simpleName && t.GetSubscriberClass() == cls
    ensures t.GetBroadcastDirection() == ToChildren
  {
    NamedTopic(cls.simpleName, cls)
  }

  /** Any value `equals` may be handed: a topic or an object of some other class. */
  datatype JavaObject = TopicObject(topic: Topic) | OtherObject(id: nat)

  /**
   * `equals(Object)`: true for the topic itself, false for null or another class,
   * otherwise field by field. In a value model "the same reference" is the same
   * value, so the identity shortcut and the field comparison agree.
   */
  function Equals(t: Topic, o: Option<JavaObject>): (r: bool)
    ensures r <==> o == Some(TopicObject(t))
  {
    if o == Some(TopicObject(t)) then true
    else match o
      case None => false
      case Some(OtherObject(_)) => false
      case Some(TopicObject(u)) =>
        t.name == u.name && t.subscriberClass == u.subscriberClass
        && t.broadcastDirection == u.broadcastDirection
  }

  /** The `String.hashCode` polynomial, over unbounded integers and taken per character (Unicode scalar value) rather than per UTF-16 unit. */
  function StringHash(s: string): int
  {
    if s == [] then 0 else 31 * StringHash(s[..|s| - 1]) + s[|s| - 1] as int
  }

  /** Stand-in for the enum constant's identity hash. */
  function DirectionHash(d: BroadcastDirection): int
  {
    match d
    case NoBroadcast => 0
    case ToChildren => 1
    case ToParent => 2
    case ToDirectChildren => 3
  }

  /** `hashCode()`: folds the name, class and direction hashes with factor 31. */
  function HashCode(t: Topic): int
  {
    31 * (31 * StringHash(t.name) + t.subscriberClass.id) + DirectionHash(t.broadcastDirection)
  }

  /** Equal topics hash alike, since the hash reads only the compared fields. */
  lemma EqualTopicsHashAlike(t: Topic, u: Topic)
    requires Equals(t, Some(TopicObject(u)))
    ensures HashCode(t) == HashCode(u)
  {
  }

  /** `equals` is reflexive and rejects null and objects of other classes. */
  lemma EqualsReflexiveAndTyped(t: Topic, id: nat)
    ensures Equals(t, Some(TopicObject(t)))
    ensures !Equals(t, None) && !Equals(t, Some(OtherObject(id)))
  {
  }

  /** Topics differing only in direction are distinct registry keys. */
  lemma DirectionDistinguishesTopics(name: string, cls: SubscriberClass, d1: BroadcastDirection, d2: BroadcastDirection)
    requires d1 != d2
    ensures !Equals(NewTopic(name, cls, d1), Some(TopicObject(NewTopic(name, cls, d2))))
    ensures NewTopic(name, cls, d1) != NewTopic(name, cls, d2)
  {
  }
}
