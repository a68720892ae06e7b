/** The lock registry of index.js as a value: the `locks` dictionary of
    per-key wait queues, together with the ghost bookkeeping (who holds each
    key, and every request and grant ever made per key) that lets mutual
    exclusion and FIFO fairness be stated. Every operation of the library is a
    transition on this value; the class in registry.dfy is proved to perform
    exactly these transitions. */
module LockState {

  /** A property key of `locks`, after JavaScript's coercion (a string, or the
      symbol itself for a Symbol key). */
  type Name = string

  /** A continuation waiting for (or running under) a grant. */
  type WaiterId = nat

  datatype Option<T> = None | Some(value: T)

  /** The first argument of `lock`: a falsy value opts out of locking; any
      other non-array value names the registry entry it is stored under. */
  datatype Key = Falsy | Named(name: Name)

  /** The release capability handed to a critical section: `noop`, or the
      `unlock` closure bound to one key. */
  datatype Capability = Noop | Unlock(name: Name)

  datatype State = State(
    locks: map<Name, seq<WaiterId>>,     // the registry: pending waiters of each contended key
    holder: map<Name, WaiterId>,         // the continuation currently granted each contended key
    requests: map<Name, seq<WaiterId>>,  // every request ever made for a key, in order
    grants: map<Name, seq<WaiterId>>)    // every grant ever made for a key, in order

  /** Result of one `lock` request: the new state, and the capability the
      critical section was invoked with at once (None: it was queued). */
  datatype Acquired = Acquired(state: State, grant: Option<Capability>)

  /** Result of invoking a release capability: the new state, and the
      continuation scheduled to run next under the same capability. */
  datatype Released = Released(state: State, next: Option<WaiterId>)

  /** Result of issuing the per-key requests of `lockMultiple`: the new state,
      and whether every grant arrived at once, so that the composite critical
      section ran synchronously. */
  datatype Issued = Issued(state: State, ran: bool)

  /** The registry when the module is loaded: `var locks = {}`. */
  function Empty(): State
  {
    State(map[], map[], map[], map[])
  }

  function History(h: map<Name, seq<WaiterId>>, n: Name): seq<WaiterId>
  {
    if n in h then h[n] else []
  }

  function Append(h: map<Name, seq<WaiterId>>, n: Name, w: WaiterId): map<Name, seq<WaiterId>>
  {
    h[n := History(h, n) + [w]]
  }

  /** The queue of key `n`; a key without an entry has nobody waiting. */
  function Pending(s: State, n: Name): seq<WaiterId>
  {
    if n in s.locks then s.locks[n] else []
  }

  function Last(q: seq<WaiterId>): WaiterId
    requires q != []
  {
    q[|q| - 1]
  }

  /** The registry invariant: a key has an entry exactly when it is held; the
      holder is the most recent grant; and every request of a key is either
      granted already or waiting in the queue, in the order the requests were
      made, so that grants follow request order. At most one holder per key
      is given by `holder` being a map. */
  ghost predicate Valid(s: State)
  {
    && s.locks.Keys == s.holder.Keys
    && forall n :: KeyValid(s, n)
  }

  /** The invariant for one key. */
  predicate KeyValid(s: State, n: Name)
  {
    && History(s.requests, n) == History(s.grants, n) + Pending(s, n)
    && (n in s.holder ==> History(s.grants, n) != [] && s.holder[n] == Last(History(s.grants, n)))
  }

  predicate Agree<V(==)>(a: map<Name, V>, b: map<Name, V>, n: Name)
  {
    (n in a <==> n in b) && (n in a ==> a[n] == b[n])
  }

  /** Key `n` has the same entry, holder and history in both states. */
  predicate SameEntry(s: State, t: State, n: Name)
  {
    && Agree(s.locks, t.locks, n)
    && Agree(s.holder, t.holder, n)
    && Agree(s.requests, t.requests, n)
    && Agree(s.grants, t.grants, n)
  }

  /** The capability a granted request for `key` receives (index.js:15, 30). */
  function CapabilityOf(key: Key): Capability
  {
    match key
    case Falsy => Noop
    case Named(n) => Unlock(n)
  }

  /** `lock(key, critical)` for a non-array key (index.js:14-32). */
  function Acquire(s: State, key: Key, w: WaiterId): (r: Acquired)
    requires Valid(s)
    ensures Valid(r.state)
    ensures forall n :: (key.Falsy? || n != key.name) ==> SameEntry(s, r.state, n)
    ensures key.Falsy? ==> r.state == s && r.grant == Some(Noop)
    ensures key.Named? ==> (r.grant.Some? <==> key.name !in s.locks)
    ensures r.grant.Some? ==> r.grant == Some(CapabilityOf(key))
    ensures key.Named? && key.name !in s.locks ==>
      && key.name in r.state.locks && r.state.locks[key.name] == []
      && r.state.holder[key.name] == w
    ensures key.Named? && key.name in s.locks ==>
      && key.name in r.state.locks
      && r.state.locks[key.name] == s.locks[key.name] + [w]
      && r.state.holder[key.name] == s.holder[key.name]
    ensures key.Named? ==> History(r.state.requests, key.name) == History(s.requests, key.name) + [w]
  {
    match key
    case Falsy => Acquired(s, Some(Noop))
    case Named(n) =>
      if n in s.locks then
        EnqueueKeepsValid(s, n, w);
        Acquired(s.(locks := s.locks[n := s.locks[n] + [w]], requests := Append(s.requests, n, w)), None)
      else
        CreateKeepsValid(s, n, w);
        Acquired(State(s.locks[n := []], s.holder[n := w], Append(s.requests, n, w), Append(s.grants, n, w)),
                 Some(Unlock(n)))
  }

  /** The property names every object literal inherits from
      `Object.prototype`. */
  const InheritedNames: set<Name> := {
    "constructor", "__proto__", "__defineGetter__", "__defineSetter__",
    "__lookupGetter__", "__lookupSetter__", "hasOwnProperty", "isPrototypeOf",
    "propertyIsEnumerable", "toLocaleString", "toString", "valueOf"}

  /** Outcome of `lock` as written: it completes, or it throws. */
  datatype Attempt = Completed(result: Acquired) | Threw

  /** `lock(key, critical)` as index.js:13-19 writes it, with `locks` a plain
      object: for a name it has no own entry for but inherits from
      `Object.prototype`, `locks[key]` is the inherited (truthy) member, and
      `pending.enqueue` is not a function, so the call throws a TypeError
      before `critical` runs and no entry is created. `Acquire` is the
      intended behaviour, which treats every name without an own entry as
      free. */
  function AcquireAsWritten(s: State, key: Key, w: WaiterId): (r: Attempt)
    requires Valid(s)
    ensures r.Threw? <==> key.Named? && key.name !in s.locks && key.name in InheritedNames
    ensures r.Completed? ==> r.result == Acquire(s, key, w)
  {
    if key.Named? && key.name !in s.locks && key.name in InheritedNames then Threw
    else Completed(Acquire(s, key, w))
  }

  /** On a fresh registry, `lock("constructor", critical)` throws as written,
      while the intended behaviour grants the free key at once. */
  lemma InheritedNameThrows()
    ensures var s := (EmptyValid(); Empty());
      && AcquireAsWritten(s, Named("constructor"), 1) == Threw
      && Acquire(s, Named("constructor"), 1).grant == Some(Unlock("constructor"))
  {
  }

  /** Creating the entry of a free key and granting it at once keeps the
      invariant (index.js:21, 30). */
  lemma CreateKeepsValid(s: State, n: Name, w: WaiterId)
    requires Valid(s) && n !in s.locks
    ensures Valid(State(s.locks[n := []], s.holder[n := w], Append(s.requests, n, w), Append(s.grants, n, w)))
  {
    var t := State(s.locks[n := []], s.holder[n := w], Append(s.requests, n, w), Append(s.grants, n, w));
    forall m ensures KeyValid(t, m) {
      assert KeyValid(s, m);
    }
  }

  /** Queueing a request behind the holder of a key keeps the invariant
      (index.js:19). */
  lemma EnqueueKeepsValid(s: State, n: Name, w: WaiterId)
    requires Valid(s) && n in s.locks
    ensures Valid(s.(locks := s.locks[n := s.locks[n] + [w]], requests := Append(s.requests, n, w)))
  {
    var t := s.(locks := s.locks[n := s.locks[n] + [w]], requests := Append(s.requests, n, w));
    forall m ensures KeyValid(t, m) {
      assert KeyValid(s, m);
    }
  }

  /** The `unlock` closure of key `n` (index.js:22-29); only the current
      holder calls it, so `n` has an entry. */
  function ReleaseKey(s: State, n: Name): (r: Released)
    requires Valid(s) && n in s.locks
    ensures Valid(r.state)
    ensures forall m :: m != n ==> SameEntry(s, r.state, m)
    ensures r.next.Some? <==> s.locks[n] != []
    ensures s.locks[n] != [] ==>
      && r.next == Some(s.locks[n][0])
      && n in r.state.locks && r.state.locks[n] == s.locks[n][1..]
      && r.state.holder[n] == s.locks[n][0]
    ensures s.locks[n] == [] ==> n !in r.state.locks && n !in r.state.holder
    ensures History(r.state.requests, n) == History(s.requests, n)
  {
    if s.locks[n] != [] then
      var next := s.locks[n][0];
      HandOverKeepsValid(s, n);
      Released(s.(locks := s.locks[n := s.locks[n][1..]],
                  holder := s.holder[n := next],
                  grants := Append(s.grants, n, next)),
               Some(next))
    else
      DeleteKeepsValid(s, n);
      Released(s.(locks := s.locks - {n}, holder := s.holder - {n}), None)
  }

  /** Handing a key to the head of its queue keeps the invariant
      (index.js:23-25). */
  lemma HandOverKeepsValid(s: State, n: Name)
    requires Valid(s) && n in s.locks && s.locks[n] != []
    ensures Valid(s.(locks := s.locks[n := s.locks[n][1..]],
                     holder := s.holder[n := s.locks[n][0]],
                     grants := Append(s.grants, n, s.locks[n][0])))
  {
    var q := s.locks[n];
    var t := s.(locks := s.locks[n := q[1..]], holder := s.holder[n := q[0]], grants := Append(s.grants, n, q[0]));
    forall m ensures KeyValid(t, m) {
      assert KeyValid(s, m);
      if m == n {
        calc {
          History(t.grants, n) + Pending(t, n);
          (History(s.grants, n) + [q[0]]) + q[1..];
          { assert q == [q[0]] + q[1..]; }
          History(s.grants, n) + q;
        }
      }
    }
  }

  /** Deleting the entry of a key whose queue is empty keeps the invariant
      (index.js:26-27). */
  lemma DeleteKeepsValid(s: State, n: Name)
    requires Valid(s) && n in s.locks && s.locks[n] == []
    ensures Valid(s.(locks := s.locks - {n}, holder := s.holder - {n}))
  {
    var t := s.(locks := s.locks - {n}, holder := s.holder - {n});
    forall m ensures KeyValid(t, m) {
      assert KeyValid(s, m);
    }
  }

  /** What a release capability may be invoked on: `noop` anywhere, `unlock`
      only while its key is held. */
  predicate CanInvoke(s: State, cap: Capability)
  {
    cap.Unlock? ==> cap.name in s.locks
  }

  /** Invoking a release capability (index.js:9, 22-29). */
  function Invoke(s: State, cap: Capability): (r: Released)
    requires Valid(s) && CanInvoke(s, cap)
    ensures Valid(r.state)
    ensures cap.Noop? ==> r == Released(s, None)
  {
    match cap
    case Noop => Released(s, None)
    case Unlock(n) => ReleaseKey(s, n)
  }

  /** The names a sequence of keys locks (falsy keys lock nothing). */
  function Names(keys: seq<Key>): set<Name>
  {
    if keys == [] then {}
    else (if keys[0].Named? then {keys[0].name} else {}) + Names(keys[1..])
  }

  /** No name occurs twice among `keys`: the caller's obligation for
      `lockMultiple` (index.js:35). */
  predicate Distinct(keys: seq<Key>)
  {
    keys == [] || ((keys[0].Named? ==> keys[0].name !in Names(keys[1..])) && Distinct(keys[1..]))
  }

  predicate AllFree(s: State, keys: seq<Key>)
  {
    Names(keys) !! s.locks.Keys
  }

  predicate AllHeldBy(s: State, keys: seq<Key>, w: WaiterId)
  {
    forall n :: n in Names(keys) ==> n in s.holder && s.holder[n] == w
  }

  /** The per-key requests `lockMultiple` issues through `async.map`, one
      `lock` per key in the order of `keys` (index.js:36-38). The composite
      critical section runs at once when every grant arrives at once (`ran`).
      Otherwise, for duplicate-free keys whose requester id belongs to this
      composite alone, it runs in the first later state where the requester
      holds every named key (`AllHeldBy`), when the last missing grant
      arrives. Repeated keys break that reading: see SelfDeadlock. */
  function AcquireAll(s: State, keys: seq<Key>, w: WaiterId): (r: Issued)
    requires Valid(s)
    ensures Valid(r.state)
    ensures forall n :: n !in Names(keys) ==> SameEntry(s, r.state, n)
    decreases |keys|
  {
    if keys == [] then Issued(s, true)
    else
      var a := Acquire(s, keys[0], w);
      var rest := AcquireAll(a.state, keys[1..], w);
      Issued(rest.state, a.grant.Some? && rest.ran)
  }

  /** The composite capability: the per-key capabilities `async.map`
      collects, by position of the key (index.js:38-39). */
  function Collect(keys: seq<Key>): (caps: seq<Capability>)
    ensures |caps| == |keys|
    ensures forall i :: 0 <= i < |keys| ==> caps[i] == CapabilityOf(keys[i])
  {
    seq(|keys|, i requires 0 <= i < |keys| => CapabilityOf(keys[i]))
  }

  /** The names a sequence of capabilities releases. */
  function CapNames(caps: seq<Capability>): set<Name>
  {
    if caps == [] then {}
    else (if caps[0].Unlock? then {caps[0].name} else {}) + CapNames(caps[1..])
  }

  predicate CapsDistinct(caps: seq<Capability>)
  {
    caps == [] || ((caps[0].Unlock? ==> caps[0].name !in CapNames(caps[1..])) && CapsDistinct(caps[1..]))
  }

  predicate CapsHeld(s: State, caps: seq<Capability>)
  {
    CapNames(caps) <= s.locks.Keys
  }

  /** The composite release: every collected capability invoked once, in
      order (index.js:41). Keys it does not name are untouched; each key it
      names ends as one release of that key alone would leave it
      (ReleaseAllPerKey). */
  function ReleaseAll(s: State, caps: seq<Capability>): (r: State)
    requires Valid(s) && CapsHeld(s, caps) && CapsDistinct(caps)
    ensures Valid(r)
    ensures forall n :: n !in CapNames(caps) ==> SameEntry(s, r, n)
    decreases |caps|
  {
    if caps == [] then s
    else ReleaseAll(Invoke(s, caps[0]).state, caps[1..])
  }

  /** `SameEntry` is symmetric. */
  lemma SameEntrySymmetric(s: State, t: State, n: Name)
    requires SameEntry(s, t, n)
    ensures SameEntry(t, s, n)
  {
  }

  /** Two maps that agree on every key are the same map. */
  lemma AgreeEverywhere<V>(a: map<Name, V>, b: map<Name, V>)
    requires forall n :: Agree(a, b, n)
    ensures a == b
  {
    assert a.Keys == b.Keys by {
      forall n ensures n in a.Keys <==> n in b.Keys { assert Agree(a, b, n); }
    }
    forall n | n in a ensures a[n] == b[n] { assert Agree(a, b, n); }
  }

  /** Two states that agree on every key are the same state. */
  lemma SameEverywhere(s: State, t: State)
    requires forall n :: SameEntry(s, t, n)
    ensures s == t
  {
    forall n
      ensures Agree(s.locks, t.locks, n) && Agree(s.holder, t.holder, n)
      ensures Agree(s.requests, t.requests, n) && Agree(s.grants, t.grants, n)
    {
      assert SameEntry(s, t, n);
    }
    AgreeEverywhere(s.locks, t.locks);
    AgreeEverywhere(s.holder, t.holder);
    AgreeEverywhere(s.requests, t.requests);
    AgreeEverywhere(s.grants, t.grants);
  }

  /** The outcome of a request for `n` depends on the entry of `n` alone. */
  lemma AcquireIsLocal(s: State, t: State, n: Name, w: WaiterId)
    requires Valid(s) && Valid(t) && SameEntry(s, t, n)
    ensures SameEntry(Acquire(s, Named(n), w).state, Acquire(t, Named(n), w).state, n)
  {
  }

  /** The outcome of a release of `n` depends on the entry of `n` alone. */
  lemma ReleaseIsLocal(s: State, t: State, n: Name)
    requires Valid(s) && Valid(t) && n in s.locks && SameEntry(s, t, n)
    ensures SameEntry(ReleaseKey(s, n).state, ReleaseKey(t, n).state, n)
  {
  }

  /** For duplicate-free keys the composite critical section runs at once
      exactly when every named key is free, that is, when every per-key
      `lock` calls back synchronously (index.js:37-41). */
  lemma {:induction false} AcquireAllRunsIffFree(s: State, keys: seq<Key>, w: WaiterId)
    requires Valid(s) && Distinct(keys)
    ensures AcquireAll(s, keys, w).ran <==> AllFree(s, keys)
    decreases |keys|
  {
    if keys != [] {
      var a := Acquire(s, keys[0], w);
      AcquireAllRunsIffFree(a.state, keys[1..], w);
      forall n | n in Names(keys[1..]) ensures n in a.state.locks <==> n in s.locks {
        assert SameEntry(s, a.state, n);
      }
    }
  }

  /** When the composite critical section runs, the requester holds every
      named key (index.js:39-41). */
  lemma {:induction false} AcquireAllRanHoldsAll(s: State, keys: seq<Key>, w: WaiterId)
    requires Valid(s)
    ensures AcquireAll(s, keys, w).ran ==> AllHeldBy(AcquireAll(s, keys, w).state, keys, w)
    decreases |keys|
  {
    if keys != [] {
      var a := Acquire(s, keys[0], w);
      var r := AcquireAll(s, keys, w);
      AcquireAllRanHoldsAll(a.state, keys[1..], w);
      if r.ran && keys[0].Named? && keys[0].name !in Names(keys[1..]) {
        assert SameEntry(a.state, r.state, keys[0].name);
      }
    }
  }

  /** For duplicate-free keys, `lockMultiple` makes exactly one `lock`
      request per named key: each ends as that single request alone would
      leave it (index.js:37-38). */
  lemma {:induction false} AcquireAllPerKey(s: State, keys: seq<Key>, w: WaiterId, n: Name)
    requires Valid(s) && Distinct(keys) && n in Names(keys)
    ensures SameEntry(AcquireAll(s, keys, w).state, Acquire(s, Named(n), w).state, n)
    decreases |keys|
  {
    var a := Acquire(s, keys[0], w);
    var r := AcquireAll(s, keys, w);
    if keys[0].Named? && keys[0].name == n {
      assert n !in Names(keys[1..]);
      SameEntrySymmetric(a.state, r.state, n);
    } else {
      AcquireAllPerKey(a.state, keys[1..], w, n);
      AcquireIsLocal(a.state, s, n, w);
    }
  }

  /** The composite critical section does not run at once while one of its
      keys is held, even by the requester itself (there is no reentrancy):
      the requester then waits in that key's queue. When another
      continuation holds the key, the fan-in is incomplete (index.js:37-41). */
  lemma CompositeWaitsForHeldKey(s: State, keys: seq<Key>, w: WaiterId, n: Name)
    requires Valid(s) && Distinct(keys) && n in Names(keys) && n in s.locks
    ensures !AcquireAll(s, keys, w).ran
    ensures s.holder[n] != w ==> !AllHeldBy(AcquireAll(s, keys, w).state, keys, w)
  {
    AcquireAllPerKey(s, keys, w, n);
    AcquireAllRunsIffFree(s, keys, w);
  }

  /** The composite release invokes each collected capability exactly once:
      each released key ends as one release of it alone would leave it
      (index.js:41). */
  lemma {:induction false} ReleaseAllPerKey(s: State, caps: seq<Capability>, n: Name)
    requires Valid(s) && CapsHeld(s, caps) && CapsDistinct(caps) && n in CapNames(caps)
    ensures SameEntry(ReleaseAll(s, caps), ReleaseKey(s, n).state, n)
    decreases |caps|
  {
    var a := Invoke(s, caps[0]);
    var r := ReleaseAll(s, caps);
    if caps[0].Unlock? && caps[0].name == n {
      assert n !in CapNames(caps[1..]);
      SameEntrySymmetric(a.state, r, n);
    } else {
      assert n !in CapNames(caps[..1]) by { assert caps[0].Unlock? ==> caps[0].name != n; }
      assert SameEntry(s, a.state, n) by {
        if caps[0].Unlock? { assert caps[0].name != n; }
      }
      ReleaseAllPerKey(a.state, caps[1..], n);
      ReleaseIsLocal(a.state, s, n);
    }
  }

  /** The capabilities collected for `keys` release exactly the names the
      keys lock, each once when the keys are duplicate-free. */
  lemma {:induction false} CollectNames(keys: seq<Key>)
    ensures CapNames(Collect(keys)) == Names(keys)
    ensures Distinct(keys) ==> CapsDistinct(Collect(keys))
    decreases |keys|
  {
    if keys != [] {
      assert Collect(keys)[1..] == Collect(keys[1..]);
      CollectNames(keys[1..]);
    }
  }

  /** The composite release does not depend on the order in which the
      per-key capabilities were collected. */
  lemma ReleaseOrderIrrelevant(s: State, caps1: seq<Capability>, caps2: seq<Capability>)
    requires Valid(s)
    requires CapsHeld(s, caps1) && CapsDistinct(caps1)
    requires CapsHeld(s, caps2) && CapsDistinct(caps2)
    requires CapNames(caps1) == CapNames(caps2)
    ensures ReleaseAll(s, caps1) == ReleaseAll(s, caps2)
  {
    var u, v := ReleaseAll(s, caps1), ReleaseAll(s, caps2);
    forall n ensures SameEntry(u, v, n) {
      if n in CapNames(caps1) {
        ReleaseAllPerKey(s, caps1, n);
        ReleaseAllPerKey(s, caps2, n);
        SameEntrySymmetric(v, ReleaseKey(s, n).state, n);
      } else {
        SameEntrySymmetric(s, u, n);
      }
    }
    SameEverywhere(u, v);
  }

  /** Locking duplicate-free free keys and then invoking the composite
      capability gives every key back: the registry and its holders are as
      before (index.js:36-42). */
  lemma CompositeRoundTrip(s: State, keys: seq<Key>, w: WaiterId)
    requires Valid(s) && Distinct(keys) && AllFree(s, keys)
    ensures AcquireAll(s, keys, w).ran
    ensures CapsHeld(AcquireAll(s, keys, w).state, Collect(keys)) && CapsDistinct(Collect(keys))
    ensures ReleaseAll(AcquireAll(s, keys, w).state, Collect(keys)).locks == s.locks
    ensures ReleaseAll(AcquireAll(s, keys, w).state, Collect(keys)).holder == s.holder
  {
    var r := AcquireAll(s, keys, w);
    AcquireAllRunsIffFree(s, keys, w);
    AcquireAllRanHoldsAll(s, keys, w);
    CollectNames(keys);
    var caps := Collect(keys);
    var u := ReleaseAll(r.state, caps);
    forall n ensures Agree(u.locks, s.locks, n) && Agree(u.holder, s.holder, n) {
      if n in Names(keys) {
        AcquireAllPerKey(s, keys, w, n);
        ReleaseAllPerKey(r.state, caps, n);
      } else {
        assert SameEntry(r.state, u, n);
      }
    }
    AgreeEverywhere(u.locks, s.locks);
    AgreeEverywhere(u.holder, s.holder);
  }

  /** A duplicate key deadlocks a composite request against itself: the
      composite critical section does not run at once, and the requester
      holds the key while its second request waits in the queue behind its
      own grant (index.js:35). */
  lemma SelfDeadlock(s: State, n: Name, w: WaiterId)
    requires Valid(s) && n !in s.locks
    ensures var r := AcquireAll(s, [Named(n), Named(n)], w);
      && !r.ran
      && n in r.state.holder && r.state.holder[n] == w
      && n in r.state.locks && r.state.locks[n] == [w]
  {
    var a := Acquire(s, Named(n), w);
    var b := Acquire(a.state, Named(n), w);
    assert [Named(n), Named(n)][1..] == [Named(n)];
    assert AcquireAll(a.state, [Named(n)], w).state == b.state;
  }

  /** Releasing a key nobody waits for deletes its entry, so the next
      request for it is granted at once (index.js:26-27, 20-21, 30). */
  lemma FreedKeyGrantsAtOnce(s: State, n: Name, w: WaiterId)
    requires Valid(s) && n in s.locks && s.locks[n] == []
    ensures Acquire(ReleaseKey(s, n).state, Named(n), w).grant == Some(Unlock(n))
  {
  }

  /** Key `n`'s request and grant histories in `t` continue those in `s`. */
  predicate KeyExtends(s: State, t: State, n: Name)
  {
    History(s.requests, n) <= History(t.requests, n) && History(s.grants, n) <= History(t.grants, n)
  }

  /** No request or grant is ever lost or reordered from `s` to `t`. */
  ghost predicate Extends(s: State, t: State)
  {
    forall n :: KeyExtends(s, t, n)
  }

  lemma ExtendsTransitive(s: State, t: State, u: State)
    requires Extends(s, t) && Extends(t, u)
    ensures Extends(s, u)
  {
    forall n ensures KeyExtends(s, u, n) {
      assert KeyExtends(s, t, n) && KeyExtends(t, u, n);
    }
  }

  lemma AcquireExtends(s: State, key: Key, w: WaiterId)
    requires Valid(s)
    ensures Extends(s, Acquire(s, key, w).state)
  {
  }

  lemma ReleaseExtends(s: State, cap: Capability)
    requires Valid(s) && CanInvoke(s, cap)
    ensures Extends(s, Invoke(s, cap).state)
  {
  }

  lemma {:induction false} AcquireAllExtends(s: State, keys: seq<Key>, w: WaiterId)
    requires Valid(s)
    ensures Extends(s, AcquireAll(s, keys, w).state)
    decreases |keys|
  {
    if keys == [] {
      forall n ensures KeyExtends(s, s, n) { }
    } else {
      var a := Acquire(s, keys[0], w).state;
      AcquireExtends(s, keys[0], w);
      AcquireAllExtends(a, keys[1..], w);
      ExtendsTransitive(s, a, AcquireAll(s, keys, w).state);
    }
  }

  lemma {:induction false} ReleaseAllExtends(s: State, caps: seq<Capability>)
    requires Valid(s) && CapsHeld(s, caps) && CapsDistinct(caps)
    ensures Extends(s, ReleaseAll(s, caps))
    decreases |caps|
  {
    if caps == [] {
      forall n ensures KeyExtends(s, s, n) { }
    } else {
      var a := Invoke(s, caps[0]).state;
      ReleaseExtends(s, caps[0]);
      ReleaseAllExtends(a, caps[1..]);
      ExtendsTransitive(s, a, ReleaseAll(s, caps));
    }
  }

  /** One call into the library by some continuation. */
  datatype Op =
    | Request(key: Key, w: WaiterId)              // lock(key, critical)
    | RequestAll(keys: seq<Key>, w: WaiterId)     // lock(keys, critical) for an array of keys
    | Call(cap: Capability, w: WaiterId)           // continuation w invokes its release
    | CallAll(caps: seq<Capability>, w: WaiterId)  // composite w invokes its release

  /** Continuation `w` is the current holder of the key `cap` releases. */
  predicate OwnedBy(s: State, cap: Capability, w: WaiterId)
  {
    cap.Unlock? ==> cap.name in s.holder && s.holder[cap.name] == w
  }

  /** Continuation `w` is the current holder of every key `caps` releases. */
  predicate CapsOwnedBy(s: State, caps: seq<Capability>, w: WaiterId)
  {
    forall n :: n in CapNames(caps) ==> n in s.holder && s.holder[n] == w
  }

  /** The caller's side of the protocol (index.js:12, 35): a key is released
      only by the continuation that currently holds it, and a composite
      release names each key once. A second release by the same
      continuation is therefore refused once the key has passed on. */
  predicate Enabled(s: State, op: Op)
  {
    match op
    case Request(_, _) => true
    case RequestAll(_, _) => true
    case Call(cap, w) => CanInvoke(s, cap) && OwnedBy(s, cap, w)
    case CallAll(caps, w) => CapsHeld(s, caps) && CapsDistinct(caps) && CapsOwnedBy(s, caps, w)
  }

  function Step(s: State, op: Op): (r: State)
    requires Valid(s) && Enabled(s, op)
    ensures Valid(r) && Extends(s, r)
  {
    match op
    case Request(key, w) => AcquireExtends(s, key, w); Acquire(s, key, w).state
    case RequestAll(keys, w) => AcquireAllExtends(s, keys, w); AcquireAll(s, keys, w).state
    case Call(cap, _) => ReleaseExtends(s, cap); Invoke(s, cap).state
    case CallAll(caps, _) => ReleaseAllExtends(s, caps); ReleaseAll(s, caps)
  }

  /** A double release is not a run: after `w` hands key `n` to another
      waiter, `w` no longer holds it, so its second release is refused rather
      than granting the next waiter while the first still runs. */
  lemma DoubleReleaseRefused(s: State, n: Name, w: WaiterId)
    requires Valid(s) && n in s.holder && s.holder[n] == w
    requires n in s.locks && s.locks[n] != [] && s.locks[n][0] != w
    ensures Enabled(s, Call(Unlock(n), w))
    ensures !Enabled(Step(s, Call(Unlock(n), w)), Call(Unlock(n), w))
    ensures RunFrom(s, [Call(Unlock(n), w), Call(Unlock(n), w)]) == None
  {
    var t := Step(s, Call(Unlock(n), w));
    assert [Call(Unlock(n), w), Call(Unlock(n), w)][1..] == [Call(Unlock(n), w)];
    assert RunFrom(t, [Call(Unlock(n), w)]) == None;
  }

  /** The state after `ops`, or None once some call breaks the protocol. */
  function RunFrom(s: State, ops: seq<Op>): (r: Option<State>)
    requires Valid(s)
    ensures r.Some? ==> Valid(r.value) && Extends(s, r.value)
    decreases |ops|
  {
    if ops == [] then
      assert forall n :: KeyExtends(s, s, n);
      Some(s)
    else if !Enabled(s, ops[0]) then None
    else
      var t := Step(s, ops[0]);
      var r := RunFrom(t, ops[1..]);
      if r.Some? then ExtendsTransitive(s, t, r.value); r else r
  }

  lemma EmptyValid()
    ensures Valid(Empty())
  {
  }

  /** Every protocol-respecting run of the library from its initial state. */
  function Run(ops: seq<Op>): (r: Option<State>)
    ensures r.Some? ==> Valid(r.value)
  {
    EmptyValid();
    RunFrom(Empty(), ops)
  }

  /** FIFO fairness in every reachable state: the grants of a key so far are
      exactly its earliest requests, in request order, and the holder is the
      latest of them; every other request is still queued, in order. */
  lemma FifoFairness(ops: seq<Op>, n: Name)
    requires Run(ops).Some?
    ensures var t := Run(ops).value;
      && History(t.grants, n) <= History(t.requests, n)
      && Pending(t, n) == History(t.requests, n)[|History(t.grants, n)|..]
      && (n in t.holder ==> |History(t.grants, n)| > 0 && t.holder[n] == History(t.requests, n)[|History(t.grants, n)| - 1])
  {
    var t := Run(ops).value;
    assert KeyValid(t, n);
  }

  /** Three continuations contend for key "x": the first is granted at once,
      the other two queue; each release hands the key to the next in request
      order, the last release frees the key, and a new request is granted at
      once. */
  lemma ThreeRequesters()
    ensures
      var s0 := Empty();
      var a1 := (EmptyValid(); Acquire(s0, Named("x"), 1));
      var a2 := Acquire(a1.state, Named("x"), 2);
      var a3 := Acquire(a2.state, Named("x"), 3);
      var r1 := ReleaseKey(a3.state, "x");
      var r2 := ReleaseKey(r1.state, "x");
      var r3 := ReleaseKey(r2.state, "x");
      && a1.grant == Some(Unlock("x")) && a2.grant == None && a3.grant == None
      && r1.next == Some(2) && r2.next == Some(3) && r3.next == None
      && "x" !in r3.state.locks
      && Acquire(r3.state, Named("x"), 4).grant == Some(Unlock("x"))
  {
  }
}
