/** The module-level state of index.js and the operations that change it in
    place: `lock`, the `unlock` closure, `lockMultiple` and its composite
    release. Each method is proved to perform exactly the transition that
    LockState defines, so every property proved there holds of the object. */
module Locks {
  import opened LockState

  class Registry {
    /** `var locks = {}` (index.js:13): the queue of every contended key. */
    var locks: map<Name, seq<WaiterId>>
    /** The continuation that is running under each key's grant. */
    ghost var holder: map<Name, WaiterId>
    /** Every request and every grant ever made for each key, in order. */
    ghost var requests: map<Name, seq<WaiterId>>
    ghost var grants: map<Name, seq<WaiterId>>

    ghost function Abs(): State
      reads this
    {
      State(locks, holder, requests, grants)
    }

    ghost predicate Valid()
      reads this
    {
      LockState.Valid(Abs())
    }

    constructor ()
      ensures Valid() && Abs() == Empty()
    {
      locks, holder, requests, grants := map[], map[], map[], map[];
      EmptyValid();
    }

    /** `lock(key, critical)` for a non-array key (index.js:14-32); `grant`
        is the capability `critical` is invoked with at once, or None when
        the request was queued. */
    method Lock(key: Key, w: WaiterId) returns (grant: Option<Capability>)
      requires Valid()
      modifies this
      ensures Acquired(Abs(), grant) == Acquire(old(Abs()), key, w)
      ensures Valid()
    {
      match key
      case Falsy =>
        grant := Some(Noop);
      case Named(n) =>
        if n in locks {
          locks := locks[n := locks[n] + [w]];
          requests := Append(requests, n, w);
          grant := None;
        } else {
          locks := locks[n := []];
          holder := holder[n := w];
          requests := Append(requests, n, w);
          grants := Append(grants, n, w);
          grant := Some(Unlock(n));
        }
    }

    /** Continuation `owner` invokes the capability `cap` (index.js:9,
        22-29); for `unlock`, `owner` must be the key's current holder.
        `next` is the continuation scheduled to run under the same
        capability. */
    method Release(cap: Capability, ghost owner: WaiterId) returns (next: Option<WaiterId>)
      requires Valid() && CanInvoke(Abs(), cap)
      requires OwnedBy(Abs(), cap, owner)
      modifies this
      ensures Released(Abs(), next) == Invoke(old(Abs()), cap)
      ensures Valid()
    {
      match cap
      case Noop =>
        next := None;
      case Unlock(n) =>
        if locks[n] != [] {
          var cont := locks[n][0];
          locks := locks[n := locks[n][1..]];
          holder := holder[n := cont];
          grants := Append(grants, n, cont);
          next := Some(cont);
        } else {
          locks := locks - {n};
          holder := holder - {n};
          next := None;
        }
    }

    /** `lockMultiple(keys, critical)` (index.js:36-43): one `lock` request
        per key, in order. `composite` is the capability the composite
        critical section is invoked with at once, or None when some key was
        queued and the section waits for its grant. */
    method LockMultiple(keys: seq<Key>, w: WaiterId) returns (composite: Option<seq<Capability>>)
      requires Valid()
      modifies this
      ensures Valid()
      ensures Abs() == AcquireAll(old(Abs()), keys, w).state
      ensures composite == if AcquireAll(old(Abs()), keys, w).ran then Some(Collect(keys)) else None
    {
      ghost var final := AcquireAll(Abs(), keys, w);
      var collected: seq<Capability> := [];
      var all := true;
      var i := 0;
      while i < |keys|
        invariant 0 <= i <= |keys|
        invariant Valid()
        invariant AcquireAll(Abs(), keys[i..], w).state == final.state
        invariant (all && AcquireAll(Abs(), keys[i..], w).ran) == final.ran
        invariant all ==> collected == Collect(keys[..i])
      {
        var grant := Lock(keys[i], w);
        assert keys[i..][1..] == keys[i + 1..];
        if grant.Some? {
          assert grant.value == CapabilityOf(keys[i]);
          collected := collected + [grant.value];
          assert all ==> collected == Collect(keys[..i + 1]) by {
            if all {
              assert keys[..i + 1] == keys[..i] + [keys[i]];
              assert Collect(keys[..i + 1]) == Collect(keys[..i]) + [CapabilityOf(keys[i])];
            }
          }
        } else {
          all := false;
        }
        i := i + 1;
      }
      assert keys[..i] == keys;
      composite := if all then Some(collected) else None;
    }

    /** The composite release (index.js:41): every collected capability
        invoked once, in order, by the composite holder `owner`. */
    method ReleaseMultiple(caps: seq<Capability>, ghost owner: WaiterId)
      requires Valid() && CapsHeld(Abs(), caps) && CapsDistinct(caps)
      requires CapsOwnedBy(Abs(), caps, owner)
      modifies this
      ensures Valid()
      ensures Abs() == ReleaseAll(old(Abs()), caps)
    {
      var i := 0;
      while i < |caps|
        invariant 0 <= i <= |caps|
        invariant Valid()
        invariant CapsHeld(Abs(), caps[i..]) && CapsDistinct(caps[i..])
        invariant CapsOwnedBy(Abs(), caps[i..], owner)
        invariant ReleaseAll(Abs(), caps[i..]) == ReleaseAll(old(Abs()), caps)
      {
        assert caps[i..][1..] == caps[i + 1..];
        ghost var before := Abs();
        var _ := Release(caps[i], owner);
        forall n | n in CapNames(caps[i + 1..]) ensures n in locks && n in holder && holder[n] == owner {
          assert caps[i].Unlock? ==> n != caps[i].name;
          assert SameEntry(before, Abs(), n);
        }
        i := i + 1;
      }
    }
  }
}
