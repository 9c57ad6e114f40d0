# TC.EventBus in Dafny

A model of the `EventBus` class of TC.EventBus: an in-process publish/subscribe
registry keyed by event type. The bus holds a table from event type to the
list of its subscriptions, in the order they were made.

- `Subscribe` creates the list for the type when it is missing, appends a new
  subscription token and returns it.
- `Publish` copies the list of the event's type (the snapshot) and invokes the
  handlers of that copy in order. A type with no list invokes nothing.
- The typed `Unsubscribe` looks up the list of its type argument; the
  type-erased one looks up the list of the type the token recorded. For a
  non-null token, both remove it by identity when it is there, and otherwise
  do nothing. A list emptied this way stays in the table.

Files:

- `list_ops.dfy` (module `ListOps`): the behaviour of .NET `List<T>` that the
  bus relies on. `Remove(x)` is `IndexOf(x)` followed by deleting that one
  position. It is proved equal to an independent element-by-element
  definition, and proved to keep the order of the other elements and to take
  exactly one copy of `x` out.
- `event_bus.dfy` (module `EventBus`): subscription tokens as a class, so their
  identity is object identity as in C#. The table is a `map<TypeTag,
  seq<Subscription>>` field of class `EventBus`, and the four operations are
  methods on it. `Subscribed` and `Unsubscribed` give the new table as a
  function of the old one. The lemmas relate these functions: the invariant
  they keep, idempotence, no-op cases, and round trips. `Valid()` is the
  invariant the methods keep. Every subscription stored under a type was
  created for that type, which is what makes the `Cast` in `Publish` safe. No
  list holds a token twice.

Modelling choices:

- An event type is a `TypeTag` (a natural number standing for
  `typeof(TEvent)`).
- Handlers are not modelled. `Publish` returns the sequence of subscriptions
  whose handlers it invokes, in invocation order.
- The typed `Unsubscribe<TEvent>` takes the type tag as an explicit argument.
  In C#, static typing makes that tag the token's own event type. The lemma
  `UnsubscribeOtherTypeIsNoOp` shows that any other tag makes the call a no-op.
- Freshness of a new token comes from object allocation, so two bus
  instances are independent: a token of one bus is never in another bus's
  lists.

## Model

| member | source | states |
|---|---|---|
| `ListOps.IndexOf` | src/TC.EventBus/EventBus.cs:80 | the lookup behind `List.Remove`: -1 exactly when the item is absent, otherwise a position holding it with no earlier occurrence |
| `ListOps.RemoveFirst` | src/TC.EventBus/EventBus.cs:80 | `List.Remove`: an absent item leaves the list unchanged; a present one shortens it by exactly one |
| `ListOps.RemoveFirstCons` | src/TC.EventBus/EventBus.cs:80 | removing from a list whose first entry is not the item keeps that entry and removes from the rest |
| `ListOps.RemoveFirstIsDeleteFirst` | src/TC.EventBus/EventBus.cs:80 | removal by index lookup agrees with the independent recursive definition that deletes the first equal element |
| `ListOps.RemoveFirstKeepsOrder` | src/TC.EventBus/EventBus.cs:80 | removing keeps the relative order of the remaining entries: the result is the list with the first occurrence cut out |
| `ListOps.RemoveFirstMultiset` | src/TC.EventBus/EventBus.cs:80 | removal takes exactly one copy of the item out, or none when it is absent |
| `ListOps.RemoveFirstMembers` | src/TC.EventBus/EventBus.cs:99 | removal never adds an entry and never loses an entry other than the removed item |
| `ListOps.RemoveFirstNoDup` | src/TC.EventBus/EventBus.cs:99 | on a list without duplicates the removed item is gone afterwards and the list stays duplicate-free |
| `ListOps.RemoveFirstIdempotent` | src/TC.EventBus/EventBus.cs:64-66 | on a duplicate-free list, removing the same item a second time changes nothing |
| `ListOps.AppendThenRemove` | src/TC.EventBus/EventBus.cs:59 | removing an item just appended to a list it was not in gives the original list back |
| `ListOps.AppendFreshNoDup` | src/TC.EventBus/EventBus.cs:58-59 | appending a new item keeps a list duplicate-free |
| `EventBus.Subscribed` | src/TC.EventBus/EventBus.cs:52-59 | subscribing makes the key present, puts the new token after the old list (or after nothing), and leaves every other type's list unchanged |
| `EventBus.Unsubscribed` | src/TC.EventBus/EventBus.cs:77-80 | unsubscribing never adds or deletes a key and leaves every other type's list unchanged |
| `EventBus.SubscribePreservesInv` | src/TC.EventBus/EventBus.cs:50-59 | subscribing a fresh token created for type T under key T keeps "every token under K has EventType K" and "no duplicates" |
| `EventBus.UnsubscribePreservesInv` | src/TC.EventBus/EventBus.cs:77-80 | unsubscribing any token keeps the table invariant |
| `EventBus.UnsubscribeRemoves` | src/TC.EventBus/EventBus.cs:64-80 | afterwards the token is not in its type's list, and that list holds exactly its old entries other than the token |
| `EventBus.UnsubscribeIdempotent` | src/TC.EventBus/EventBus.cs:64-66 | unsubscribing twice has the same effect as unsubscribing once |
| `EventBus.UnsubscribeAbsentIsNoOp` | src/TC.EventBus/EventBus.cs:77-80 | unsubscribing a token that is in no list, or looking under a type that has no list, changes nothing |
| `EventBus.UnsubscribeOtherTypeIsNoOp` | src/TC.EventBus/EventBus.cs:90-100 | only the list of the token's recorded event type can hold it, so looking elsewhere removes nothing; the type-erased form finds the same list as the typed one |
| `EventBus.SubscribeThenUnsubscribe` | src/TC.EventBus/EventBus.cs:52-80 | subscribing a fresh token and then unsubscribing it restores every list, leaving only the (possibly empty) list of its type behind |
| `EventBus.SubscribedAllAppends` | src/TC.EventBus/EventBus.cs:52-59 | N subscriptions to one type stand in that type's list after the earlier ones, in the order they were made; other types untouched |
| `EventBus.Subscription.constructor` | src/TC.EventBus/EventBus.cs:127-137 | a new token records the event type it was created for |
| `EventBus.EventBus.constructor` | src/TC.EventBus/EventBus.cs:13 | a new bus has an empty table |
| `EventBus.EventBus.Subscribe` | src/TC.EventBus/EventBus.cs:46-62 | returns a fresh token for type T, absent from every list before the call; the table becomes `Subscribed(old, T, token)`; invariant kept |
| `EventBus.EventBus.Publish` | src/TC.EventBus/EventBus.cs:21-37 | invokes nothing when T has no list; otherwise invokes exactly the snapshot of T's list, in insertion order, each once, every one of event type T; the table is not changed |
| `EventBus.EventBus.Unsubscribe` | src/TC.EventBus/EventBus.cs:71-82 | typed form: the table becomes `Unsubscribed(old, T, token)`; invariant kept |
| `EventBus.EventBus.UnsubscribeAny` | src/TC.EventBus/EventBus.cs:90-101 | type-erased form: the table becomes `Unsubscribed(old, token.EventType, token)`; invariant kept |
| `EventBus.PingScenario` | src/TC.EventBus/EventBus.cs:21-101 | two handlers on one type are invoked in subscription order; after cancelling the first only the second is; cancelling again changes nothing; a second bus sees no subscriptions |

## Left out

- The `lock(lockObj)` blocks: each operation is modelled as one atomic step. Interleavings of concurrent callers are not modelled. In particular, the model does not show a subscription made while a `Publish` is still invoking handlers; it only shows that the snapshot is a value copied before any handler runs.
- Running handlers (`Subscription<TEvent>.Invoke` and the delegate it wraps): handlers are opaque foreign code. The delegate stored in a token is not modelled.
- A handler that throws aborts the rest of the `Publish` loop. This is not modelled. The table is unaffected either way, because the loop runs on the snapshot.
- C# reflection and LINQ (`typeof`, `Cast`, `ToArray`) are replaced by a numeric type tag and a sequence copied into a fresh array. The `Cast` cannot fail because of the invariant that `Publish` states.
- Null tokens and null handlers are not modelled: `Subscription` is a non-null class type here, and handlers are not modelled at all. In C#, the typed `Unsubscribe<TEvent>(null)` does nothing, because `List.Remove(null)` finds no entry (src/TC.EventBus/EventBus.cs:77-80). The type-erased `Unsubscribe(null)` throws `NullReferenceException` when it reads `subscription.EventType` (src/TC.EventBus/EventBus.cs:94). `Subscribe` accepts a null handler without checking it (src/TC.EventBus/EventBus.cs:58); the first `Publish` that reaches it then throws `NullReferenceException` in `Invoke` (src/TC.EventBus/EventBus.cs:134), which aborts the rest of that `Publish`.
- The demo program `src/Example/Program.cs` is only console output around one subscribe and one publish.
