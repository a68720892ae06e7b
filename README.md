# ki1r0y.lock: per-key mutual exclusion, modelled in Dafny

`lock(key, critical)` runs `critical(unlock)` while no other continuation holds
`key`. The registry `locks` maps every contended key to a FIFO queue of the
continuations waiting for it. A request for a free key creates the entry and
runs at once. A request for a held key joins the back of the queue. Invoking
`unlock` hands the key to the head of the queue, or deletes the entry when
nobody waits. `lockMultiple(keys, critical)` issues one `lock` per key. It
runs `critical` once every per-key grant has arrived, and hands it a composite
release that invokes every collected `unlock`.

The model has two modules.

- `LockState` (lock_state.dfy) describes the registry as a value `State`. It
  adds ghost bookkeeping to the registry: the current holder of each key, and
  every request and every grant ever made for each key, in order. `Valid` is
  the invariant:
  - a key has an entry exactly when it is held;
  - the holder is the latest grant;
  - each key's requests are its grants followed by its queue, so grants
    follow request order.
  Every operation is a function on `State`. The lemmas prove that each
  operation keeps `Valid`, touches only its own keys, and extends the
  histories without rewriting them. `Run` replays any sequence of calls that
  respects the caller's side of the protocol, and `FifoFairness` holds in
  every state a run reaches.
- `Locks` (registry.dfy) is the imperative form. Class `Registry` holds the
  real `locks` map and the ghost bookkeeping as fields. Its methods `Lock`,
  `Release`, `LockMultiple` and `ReleaseMultiple` update the map in place.
  `LockMultiple` and `ReleaseMultiple` are loops over the keys. Each method
  is proved to make exactly the transition that `LockState` defines.

Continuations are opaque waiter ids (`WaiterId`). The release capability
handed to a critical section is a value, `Capability`: either `Noop` or
`Unlock(name)`. A grant is the state change that makes a waiter the holder.
`holder` being a map means there is at most one holder per key. A key is
`Falsy` (no locking) or `Named(name)`, where `name` is the property name the
key is stored under in `locks`.

## Model

| member | source | states |
|---|---|---|
| LockState.Acquire | index.js:14-32 | A falsy key changes nothing and is granted at once with `noop`. Otherwise the request is granted at once exactly when the key has no entry; the entry is then created with an empty queue and the requester becomes the holder. For a key with an entry, the requester is appended at the tail and the holder is unchanged. The request is recorded in the key's history, `Valid` is kept, and every other key is unchanged. |
| LockState.AcquireAsWritten | index.js:13-19 | As written, a request throws exactly when its name has no own entry and is inherited from `Object.prototype`; otherwise it completes as `Acquire`. |
| LockState.InheritedNameThrows | index.js:17-19 | On a fresh registry, `lock("constructor", …)` throws as written, while `Acquire` grants it at once. |
| LockState.CreateKeepsValid | index.js:20-21 | Creating the entry of a free key and granting it to the requester keeps the registry invariant. |
| LockState.EnqueueKeepsValid | index.js:18-19 | Queueing a request behind the holder keeps the registry invariant. |
| LockState.ReleaseKey | index.js:22-29 | For a held key with a non-empty queue, the head waiter is removed from the queue, becomes the holder and is scheduled; the entry is kept. For an empty queue, the entry and the holder are deleted. `Valid` is kept, no request is lost, and every other key is unchanged. |
| LockState.HandOverKeepsValid | index.js:23-25 | Handing the key to the head of its queue keeps the invariant: the new holder is the next request in order. |
| LockState.DeleteKeepsValid | index.js:26-27 | Deleting the entry of a key whose queue is empty keeps the invariant. |
| LockState.Invoke | index.js:22-29 | Invoking a capability keeps `Valid`; invoking `noop` changes nothing and schedules nobody. |
| LockState.AcquireAll | index.js:36-38 | Issuing one `lock` per key keeps `Valid` and leaves every key outside `keys` unchanged. |
| LockState.AcquireAllRunsIffFree | index.js:37-41 | For duplicate-free keys, the composite critical section runs at once exactly when every named key is free. |
| LockState.AcquireAllRanHoldsAll | index.js:39-41 | The composite critical section runs only when the requester holds every named key. |
| LockState.AcquireAllPerKey | index.js:37-38 | For duplicate-free keys, each named key ends in the same state as after one `lock` request for that key alone. |
| LockState.CompositeWaitsForHeldKey | index.js:37-41 | While one of the keys has an entry, even one the requester holds itself, the composite does not run at once. When another continuation holds that key, the requester also does not hold all of its keys. |
| LockState.ReleaseAll | index.js:41 | The composite release keeps `Valid` and leaves every key it does not name unchanged. |
| LockState.ReleaseAllPerKey | index.js:41 | The composite release invokes each collected `unlock` exactly once: each named key ends in the same state as after one release of that key alone. |
| LockState.Collect | index.js:37-39 | The composite capability `pendingLocks` has one per-key capability per key, at the key's position, as `async.map` stores results. What it releases is stated by `CollectNames`. |
| LockState.CollectNames | index.js:38-41 | The collected capabilities release exactly the names the keys lock, and each name once when the keys are duplicate-free. |
| LockState.ReleaseOrderIrrelevant | index.js:39-41 | Two composite releases over the same set of keys, invoked in any order, give the same state. |
| LockState.CompositeRoundTrip | index.js:36-42 | Locking duplicate-free free keys and then invoking the composite release gives back the original registry and holders: every key is free again. |
| LockState.SelfDeadlock | index.js:35-38 | With a duplicated free key, the composite does not run at once: the requester holds the key while its second request waits in the queue behind its own grant. |
| LockState.FreedKeyGrantsAtOnce | index.js:20-30 | After the last release of a key without waiters, the next request for it is granted at once. |
| LockState.AcquireIsLocal | index.js:17-21 | The outcome of a request for a key depends on that key's entry alone. |
| LockState.ReleaseIsLocal | index.js:22-28 | The outcome of a release of a key depends on that key's entry alone. |
| LockState.AcquireExtends | index.js:17-21 | A request only extends the request and grant histories, never rewrites them. |
| LockState.ReleaseExtends | index.js:22-28 | A release only extends the histories. |
| LockState.AcquireAllExtends | index.js:37-38 | The per-key requests of `lockMultiple` only extend the histories. |
| LockState.ReleaseAllExtends | index.js:41 | The composite release only extends the histories. |
| LockState.EmptyValid | index.js:13 | The empty registry satisfies the invariant. |
| LockState.Step | index.js:14-43 | Each library call that respects the protocol keeps `Valid` and only extends the histories. The protocol: a key is released only by the continuation that holds it, and a composite release names each key once. |
| LockState.DoubleReleaseRefused | index.js:22-25 | After a holder hands its key to another waiter, a second release by the same continuation is not part of any run, so the next waiter is never granted while the one before it still runs. |
| LockState.RunFrom | index.js:14-43 | Every sequence of calls in which each release comes from the current holder keeps `Valid` and only extends the histories. |
| LockState.Run | index.js:13-43 | Every state reachable from the empty registry is `Valid`. |
| LockState.FifoFairness | index.js:17-31 | In every reachable state, a key's grants are its earliest requests in request order, its queue is the rest of its requests in order, and its holder is the latest grant. |
| LockState.ThreeRequesters | index.js:17-29 | Requests 1, 2 and 3 for "x": 1 is granted at once, 2 and 3 queue. The releases hand the key to 2, then 3, then delete the entry, and a fourth request is granted at once. |
| Locks.Registry.constructor | index.js:13 | The registry starts empty and valid. |
| Locks.Registry.Lock | index.js:14-32 | Updating `locks` in place makes exactly the transition `Acquire`, returning the capability when `critical` runs at once. |
| Locks.Registry.Release | index.js:22-29 | Invoked by `owner`, which must be the current holder for an `unlock`, the update in place makes exactly the transition `Invoke`, returning the continuation it schedules. |
| Locks.Registry.LockMultiple | index.js:36-43 | The loop of per-key `lock` calls makes exactly the transition `AcquireAll`. It returns the collected composite capability exactly when every grant arrived at once. |
| Locks.Registry.ReleaseMultiple | index.js:41 | The `forEach` over the collected capabilities, invoked by the composite holder, makes exactly the transition `ReleaseAll`. |

The composite release invokes the collected capabilities in key order, not
in the order the grants arrived, because `async.map` stores each result at
its key's position (index.js:37-39). `Collect` follows the code, and
`ReleaseOrderIrrelevant` shows that the registry ends the same for any order.

## Left out

- `setImmediate` deferral (index.js:25): the next holder is granted when the release happens. `Release` returns it as the continuation to run; scheduler turns and stack depth are not modelled.
- `async.map` (index.js:37-40) is a foreign library. Its fan-out is the loop in `LockMultiple`. Its fan-in is modelled as a condition, not a counter. For duplicate-free keys whose requester id belongs to one composite alone, the condition is "every key is held by the requester" (`AllHeldBy`). With repeated keys that condition is already met while the second request for a key still waits, so it does not describe the fan-in. Its error channel is never used by the source and is left out.
- `queue.js` is not part of this model; a queue is a `seq` with enqueue at the back and dequeue at the front.
- `util.isArray` (index.js:16): the array dispatch is the choice between `Lock` and `LockMultiple`. `util.deprecate` (index.js:45) only wraps a function.
- Arrays nested inside the keys of `lockMultiple` are not modelled: each element is a falsy key or a named key.
- Property-key coercion is taken as given: `Name` stands for the property key after coercion (a string for most values, the symbol itself for a Symbol), so two values with the same property key share one entry.
- The registry of the model holds own entries only. As written, `locks` is a plain object, and a name inherited from `Object.prototype` (such as `"constructor"`) makes index.js:19 throw a TypeError; see "## Findings".
- Closures and user callbacks are waiter ids. `critical`'s return value (returned for a falsy key, index.js:15) and exceptions thrown inside it are not modelled.
- Locks.Registry.Release: requires `owner`, the calling continuation, to be the current holder, because double release is a caller's contract violation. A capability does not record which grant it belongs to: the source passes the same closure to every holder. So the model relies on the caller naming itself truthfully. The overlap a double release would cause is not modelled.
- LockState.ReleaseAll: requires each key to be named once and held, for the same reason. Duplicate keys are allowed in `AcquireAll`, and `SelfDeadlock` shows their effect.
- Freedom from deadlock across overlapping `lockMultiple` calls is not proved; the source does not prevent circular wait.

## Findings

| source | as written | input that shows it | evidently intended | confidence | as-written member | corrected member |
|---|---|---|---|---|---|---|
| index.js:13-19 | `locks` is a plain object literal, so `locks[key]` also finds members inherited from `Object.prototype`; `pending.enqueue(critical)` then throws a TypeError, `critical` never runs and no entry is created | `lock("constructor", critical)` on a fresh registry (likewise `"toString"`, `"valueOf"`, `"__proto__"`, ...); and `lock(["a", "toString"], critical)` with `"a"` free, where `"a"` is granted, the per-key `lock` of `"toString"` throws out of `lockMultiple`, and `"a"` stays held | every key without an entry of its own is free, so the request is granted at once | not executed | LockState.AcquireAsWritten, LockState.InheritedNameThrows | LockState.Acquire |
