/**
 * An in-process, type-keyed publish/subscribe registry. The bus keeps, per
 * event type, the list of subscriptions in the order they were made.
 * `Subscribe` appends a new subscription (creating the type's list when it is
 * missing), `Publish` copies the current list for the event's type and invokes
 * the handlers of that copy in order, and the two `Unsubscribe` forms remove a
 * subscription from the list of its type, by identity, when it is there.
 *
 * Each operation runs under the bus's lock in C#; here each is one
 * atomic method. Handlers are opaque code: `Publish` returns the subscriptions
 * whose handlers it invokes, in invocation order, instead of running them.
 */
module EventBus {
  import opened ListOps

  /** The identity of an event type (`typeof(TEvent)` in C#). */
  type TypeTag = nat

  /**
   * One registered interest in events of one type. Its identity is the object
   * itself: two subscriptions with the same handler are still distinct. The
   * handler it wraps is not modelled; only its recorded event type is.
   */
  class Subscription {
    /** The event type the subscription was created for. */
    const eventType: TypeTag

    constructor (eventType: TypeTag)
      ensures this.eventType == eventType
    {
      this.eventType := eventType;
    }
  }

  /** The registry state: the subscriptions of each event type, in insertion order. */
  type Table = map<TypeTag, seq<Subscription>>

  /** The list registered for `t`, or the empty list when `t` has none. */
  function Bucket(m: Table, t: TypeTag): (b: seq<Subscription>)
  {
    if t in m then m[t] else []
  }

  /** Every subscription stored under a type was created for that type. */
  ghost predicate WellTyped(m: Table)
  {
    forall t, s :: t in m && s in m[t] ==> s.eventType == t
  }

  /** No list holds the same subscription twice. */
  ghost predicate Distinct(m: Table)
  {
    forall t :: t in m ==> NoDup(m[t])
  }

  /** The invariant the bus keeps. */
  ghost predicate Inv(m: Table)
  {
    WellTyped(m) && Distinct(m)
  }

  /** `s` is registered under no type at all. */
  ghost predicate Absent(m: Table, s: Subscription)
  {
    forall t :: t in m ==> s !in m[t]
  }

  /** The table after subscribing `s` to events of type `t`. */
  function Subscribed(m: Table, t: TypeTag, s: Subscription): (r: Table)
    ensures r.Keys == m.Keys + {t}
    ensures r[t] == Bucket(m, t) + [s]
    ensures forall u :: u in m && u != t ==> r[u] == m[u]
  {
    m[t := Bucket(m, t) + [s]]
  }

  /** The table after removing `s` from the list of type `t`. No key is ever
      added or deleted, and the lists of other types are untouched. */
  function Unsubscribed(m: Table, t: TypeTag, s: Subscription): (r: Table)
    ensures r.Keys == m.Keys
    ensures forall u :: u in m && u != t ==> r[u] == m[u]
  {
    if t in m then m[t := RemoveFirst(m[t], s)] else m
  }

  /** Subscribing a fresh subscription, created for `t`, keeps the invariant. */
  lemma SubscribePreservesInv(m: Table, t: TypeTag, s: Subscription)
    requires Inv(m) && Absent(m, s) && s.eventType == t
    ensures Inv(Subscribed(m, t, s))
  {
    AppendFreshNoDup(Bucket(m, t), s);
  }

  /** Unsubscribing, with any type and any token, keeps the invariant. */
  lemma UnsubscribePreservesInv(m: Table, t: TypeTag, s: Subscription)
    requires Inv(m)
    ensures Inv(Unsubscribed(m, t, s))
  {
    if t in m {
      RemoveFirstMembers(m[t], s);
      RemoveFirstNoDup(m[t], s);
    }
  }

  /** After unsubscribing, `s` is no longer in the list of `t`, and every
      other subscription of that list is still there. */
  lemma UnsubscribeRemoves(m: Table, t: TypeTag, s: Subscription)
    requires Inv(m)
    ensures s !in Bucket(Unsubscribed(m, t, s), t)
    ensures forall x :: x in Bucket(Unsubscribed(m, t, s), t) <==> x in Bucket(m, t) && x != s
  {
    if t in m {
      RemoveFirstMembers(m[t], s);
      RemoveFirstNoDup(m[t], s);
    }
  }

  /** Unsubscribing twice has the same effect as unsubscribing once. */
  lemma UnsubscribeIdempotent(m: Table, t: TypeTag, s: Subscription)
    requires Inv(m)
    ensures Unsubscribed(Unsubscribed(m, t, s), t, s) == Unsubscribed(m, t, s)
  {
    if t in m {
      RemoveFirstIdempotent(m[t], s);
    }
  }

  /** Unsubscribing a token that is in no list, or looking in a list that
      does not exist, changes nothing. */
  lemma UnsubscribeAbsentIsNoOp(m: Table, t: TypeTag, s: Subscription)
    requires Absent(m, s) || t !in m
    ensures Unsubscribed(m, t, s) == m
  {
  }

  /** Under the invariant, only the list of the token's own event type can
      hold it: looking in the list of any other type removes nothing. So the
      typed form (which looks under its type argument) and the type-erased
      form (which looks under the token's recorded type) can only differ by
      doing nothing. */
  lemma UnsubscribeOtherTypeIsNoOp(m: Table, t: TypeTag, s: Subscription)
    requires Inv(m) && t != s.eventType
    ensures Unsubscribed(m, t, s) == m
  {
    if t in m {
      assert s !in m[t];
    }
  }

  /** Subscribing a fresh subscription and then unsubscribing it restores
      every list; the only trace left is the (possibly empty) list of `t`. */
  lemma SubscribeThenUnsubscribe(m: Table, t: TypeTag, s: Subscription)
    requires Absent(m, s)
    ensures Unsubscribed(Subscribed(m, t, s), t, s) == m[t := Bucket(m, t)]
  {
    AppendThenRemove(Bucket(m, t), s);
  }

  /** The table after subscribing each of `ss` to `t`, in order. */
  function SubscribedAll(m: Table, t: TypeTag, ss: seq<Subscription>): (r: Table)
    decreases |ss|
  {
    if ss == [] then m else SubscribedAll(Subscribed(m, t, ss[0]), t, ss[1..])
  }

  /** N subscriptions to one type, made one after another, stand in that
      type's list after the earlier ones, in the order they were made; the
      lists of the other types are untouched. */
  lemma {:induction false} SubscribedAllAppends(m: Table, t: TypeTag, ss: seq<Subscription>)
    ensures Bucket(SubscribedAll(m, t, ss), t) == Bucket(m, t) + ss
    ensures forall u :: u != t ==> Bucket(SubscribedAll(m, t, ss), u) == Bucket(m, u)
    decreases |ss|
  {
    if ss != [] {
      SubscribedAllAppends(Subscribed(m, t, ss[0]), t, ss[1..]);
      assert ss == [ss[0]] + ss[1..];
    }
  }

  /** The subscription registry. */
  class EventBus {
    /** For each event type, its subscriptions in insertion order. */
    var subscriptions: Table

    ghost predicate Valid()
      reads this
    {
      Inv(subscriptions)
    }

    /** A new bus has no subscriptions. */
    constructor ()
      ensures Valid()
      ensures subscriptions == map[]
    {
      subscriptions := map[];
    }

    /**
     * Register interest in events of type `t`. The list for `t` is created
     * when missing; the new subscription goes at its end and is returned.
     */
    method Subscribe(t: TypeTag) returns (subscription: Subscription)
      requires Valid()
      modifies this
      ensures Valid()
      ensures fresh(subscription) && subscription.eventType == t
      ensures Absent(old(subscriptions), subscription)
      ensures subscriptions == Subscribed(old(subscriptions), t, subscription)
    {
      if t !in subscriptions {
        subscriptions := subscriptions[t := []];
      }
      subscription := new Subscription(t);
      SubscribePreservesInv(subscriptions, t, subscription);
      subscriptions := subscriptions[t := subscriptions[t] + [subscription]];
    }

    /**
     * Publish an event of type `t`. The list for `t` is copied into a fresh
     * array (the snapshot) and the handlers of the snapshot are invoked in
     * order; `invoked` records those invocations. Nothing happens when `t`
     * has no list, and the registry itself is never changed.
     */
    method Publish(t: TypeTag) returns (invoked: seq<Subscription>)
      requires Valid()
      ensures t !in subscriptions ==> invoked == []
      ensures t in subscriptions ==> invoked == subscriptions[t]
      ensures forall s :: s in invoked ==> s.eventType == t
      ensures NoDup(invoked)
    {
      invoked := [];
      if t !in subscriptions {
        return;
      }
      var forType := subscriptions[t];
      var toInvoke := new Subscription[|forType|](i requires 0 <= i < |forType| => forType[i]);
      for i := 0 to toInvoke.Length
        invariant invoked == toInvoke[..i]
      {
        invoked := invoked + [toInvoke[i]];
      }
      assert toInvoke[..] == forType;
    }

    /**
     * Cancel `subscription` through the typed form: look in the list of the
     * type argument `t`. (C#'s static typing makes `t` the token's
     * own event type.) A missing list or a missing token leaves everything as
     * it was; an emptied list stays in the table.
     */
    method Unsubscribe(t: TypeTag, subscription: Subscription)
      requires Valid()
      modifies this
      ensures Valid()
      ensures subscriptions == Unsubscribed(old(subscriptions), t, subscription)
    {
      if t !in subscriptions {
        return;
      }
      UnsubscribePreservesInv(subscriptions, t, subscription);
      subscriptions := subscriptions[t := RemoveFirst(subscriptions[t], subscription)];
    }

    /**
     * Cancel `subscription` through the type-erased form: look in the list of
     * the event type the token recorded when it was created.
     */
    method UnsubscribeAny(subscription: Subscription)
      requires Valid()
      modifies this
      ensures Valid()
      ensures subscriptions == Unsubscribed(old(subscriptions), subscription.eventType, subscription)
    {
      var t := subscription.eventType;
      if t !in subscriptions {
        return;
      }
      UnsubscribePreservesInv(subscriptions, t, subscription);
      subscriptions := subscriptions[t := RemoveFirst(subscriptions[t], subscription)];
    }
  }

  /**
   * Two handlers subscribed to one event type are invoked in subscription
   * order; after the first is cancelled only the second is; cancelling it
   * again changes nothing; and a second bus is not affected by the first.
   */
  method PingScenario(ping: TypeTag)
    returns (h1: Subscription, h2: Subscription,
             first: seq<Subscription>, second: seq<Subscription>, third: seq<Subscription>,
             other: seq<Subscription>)
    ensures h1 != h2
    ensures first == [h1, h2]
    ensures second == [h2] && third == [h2]
    ensures other == []
  {
    var bus := new EventBus();
    var otherBus := new EventBus();
    h1 := bus.Subscribe(ping);
    h2 := bus.Subscribe(ping);
    first := bus.Publish(ping);
    bus.Unsubscribe(ping, h1);
    second := bus.Publish(ping);
    bus.UnsubscribeAny(h1);
    third := bus.Publish(ping);
    other := otherBus.Publish(ping);
  }
}
