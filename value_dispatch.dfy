/**
 A value-keyed dispatcher: a registry maps key values to handlers, and a call
 with a key is routed to the handler registered for that key or, when there
 is none, to a default handler that also receives the key.

 Handlers are opaque (type parameter H): the model records which handler is
 selected and which arguments it would receive, and never runs it. Keys and
 argument values are both values of the host language (type parameter V);
 keyword arguments are a map from names to values.
 */
module ValueDispatch {

  /** Which handler a call is routed to, and the arguments it is called with. */
  datatype Selection<V, H> =
    | Matched(handler: H, args: seq<V>, kwargs: map<string, V>)
    | Default(handler: H, key: V, args: seq<V>, kwargs: map<string, V>)
  {
    /** The positional arguments the selected handler receives. */
    function Positional(): seq<V>
    {
      match this
      case Matched(_, args, _) => args
      case Default(_, key, args, _) => [key] + args
    }
  }

  /** One registration: key `key` was bound to `handler`. */
  datatype Registration<V, H> = Registration(key: V, handler: H)

  /** The registry after binding `key` to `handler`: that key now maps to the
      handler, whatever it mapped to before, and every other key is untouched. */
  function Registered<V, H>(registry: map<V, H>, key: V, handler: H): (r: map<V, H>)
    ensures r.Keys == registry.Keys + {key}
    ensures r[key] == handler
    ensures forall k :: k in registry && k != key ==> r[k] == registry[k]
  {
    registry[key := handler]
  }

  /** The registry obtained from `registry` by applying `regs` in order. */
  function Replay<V, H>(registry: map<V, H>, regs: seq<Registration<V, H>>): map<V, H>
    decreases |regs|
  {
    if regs == [] then registry
    else
      var last := regs[|regs| - 1];
      Registered(Replay(registry, regs[..|regs| - 1]), last.key, last.handler)
  }

  /** Index `i` holds the last registration of `key` in `regs`. */
  ghost predicate IsLastFor<V, H>(regs: seq<Registration<V, H>>, key: V, i: int)
  {
    && 0 <= i < |regs|
    && regs[i].key == key
    && forall j :: i < j < |regs| ==> regs[j].key != key
  }

  /** No registration in `regs` binds `key`. */
  ghost predicate NeverRegistered<V, H>(regs: seq<Registration<V, H>>, key: V)
  {
    forall j :: 0 <= j < |regs| ==> regs[j].key != key
  }

  /** Every key either was never registered or has a last registration, so
      the two cases of `ReplayLookup` cover every key. */
  lemma {:induction false} RegisteredOrNot<V, H>(regs: seq<Registration<V, H>>, key: V)
    ensures NeverRegistered(regs, key) <==> !exists i :: IsLastFor(regs, key, i)
    decreases |regs|
  {
    if regs != [] {
      var n := |regs| - 1;
      if regs[n].key == key {
        assert IsLastFor(regs, key, n);
      } else {
        RegisteredOrNot(regs[..n], key);
        if !NeverRegistered(regs, key) {
          var j :| 0 <= j < |regs| && regs[j].key == key;
          assert regs[..n][j].key == key;
          var i :| IsLastFor(regs[..n], key, i);
          assert IsLastFor(regs, key, i);
        }
      }
    }
  }

  /** What a registry built by a sequence of registrations holds for a key:
      the handler of the last registration of that key, or, when the key was
      never registered, whatever the starting registry held. */
  lemma {:induction false} ReplayLookup<V, H>(registry: map<V, H>, regs: seq<Registration<V, H>>, key: V)
    ensures NeverRegistered(regs, key) ==>
              (key in Replay(registry, regs) <==> key in registry) &&
              (key in registry ==> Replay(registry, regs)[key] == registry[key])
    ensures forall i :: IsLastFor(regs, key, i) ==>
              key in Replay(registry, regs) && Replay(registry, regs)[key] == regs[i].handler
    decreases |regs|
  {
    if regs != [] {
      var n := |regs| - 1;
      var prefix := regs[..n];
      ReplayLookup(registry, prefix, key);
      if regs[n].key != key {
        forall i | IsLastFor(regs, key, i)
          ensures IsLastFor(prefix, key, i)
        {
        }
        if NeverRegistered(regs, key) {
          assert NeverRegistered(prefix, key);
        }
      } else {
        forall i | IsLastFor(regs, key, i)
          ensures i == n
        {
        }
      }
    }
  }

  /** A key is in a replayed registry exactly when it was in the starting
      registry or some registration bound it. */
  lemma {:induction false} ReplayKeys<V, H>(registry: map<V, H>, regs: seq<Registration<V, H>>)
    ensures Replay(registry, regs).Keys == registry.Keys + set i | 0 <= i < |regs| :: regs[i].key
    decreases |regs|
  {
    if regs != [] {
      var n := |regs| - 1;
      ReplayKeys(registry, regs[..n]);
      var before := set i | 0 <= i < n :: regs[..n][i].key;
      var after := set i | 0 <= i < |regs| :: regs[i].key;
      assert after == before + {regs[n].key} by {
        forall k | k in after ensures k in before + {regs[n].key} {
          var i :| 0 <= i < |regs| && regs[i].key == k;
          if i < n { assert regs[..n][i].key == k; }
        }
        forall k | k in before ensures k in after {
          var i :| 0 <= i < n && regs[..n][i].key == k;
          assert regs[i].key == k;
        }
      }
    }
  }

  /** Registering the same key twice keeps only the second handler: the
      history is equivalent to one registration with the later handler. */
  lemma LastWriteWins<V, H>(registry: map<V, H>, regs: seq<Registration<V, H>>, key: V, first: H, second: H)
    ensures Replay(registry, regs + [Registration(key, first), Registration(key, second)])
         == Replay(registry, regs + [Registration(key, second)])
  {
    var once := regs + [Registration(key, second)];
    var twice := regs + [Registration(key, first), Registration(key, second)];
    assert twice[..|twice| - 1] == regs + [Registration(key, first)];
    assert (regs + [Registration(key, first)])[..|regs|] == regs;
    assert once[..|once| - 1] == regs;
  }

  /** Registering the same handler for the same key twice is the same as
      registering it once. */
  lemma RegisterTwiceSameAsOnce<V, H>(registry: map<V, H>, regs: seq<Registration<V, H>>, key: V, handler: H)
    ensures Replay(registry, regs + [Registration(key, handler), Registration(key, handler)])
         == Replay(registry, regs + [Registration(key, handler)])
  {
    LastWriteWins(registry, regs, key, handler, handler);
  }

  /** Registrations of different keys may be made in either order: the
      registry, and so every dispatch, is the same. */
  lemma DistinctKeysCommute<V, H>(registry: map<V, H>, regs: seq<Registration<V, H>>, a: Registration<V, H>, b: Registration<V, H>)
    requires a.key != b.key
    ensures Replay(registry, regs + [a, b]) == Replay(registry, regs + [b, a])
  {
    var ab := regs + [a, b];
    var ba := regs + [b, a];
    assert ab[..|ab| - 1] == regs + [a];
    assert ba[..|ba| - 1] == regs + [b];
    assert (regs + [a])[..|regs|] == regs;
    assert (regs + [b])[..|regs|] == regs;
  }

  /** The routing decision of a dispatch call: a registered key selects its
      handler, which receives the call's arguments without the key; any other
      key selects the default handler, which receives the key followed by the
      call's arguments. Keyword arguments are passed unchanged either way. */
  function Route<V, H>(registry: map<V, H>, defaultFunc: H, value: V, args: seq<V>, kwargs: map<string, V>): (s: Selection<V, H>)
    ensures s.Matched? <==> value in registry
    ensures s.handler == (if value in registry then registry[value] else defaultFunc)
    ensures s.Positional() == (if value in registry then args else [value] + args)
    ensures s.kwargs == kwargs
  {
    if value in registry then Matched(registry[value], args, kwargs)
    else Default(defaultFunc, value, args, kwargs)
  }

  /** Dispatching after a sequence of registrations on a fresh dispatcher:
      the last handler registered for the key is selected, and a key never
      registered goes to the default handler together with the key. */
  lemma RouteAfterRegistrations<V, H>(regs: seq<Registration<V, H>>, defaultFunc: H, value: V, args: seq<V>, kwargs: map<string, V>)
    ensures forall i :: IsLastFor(regs, value, i) ==>
              Route(Replay(map[], regs), defaultFunc, value, args, kwargs) == Matched(regs[i].handler, args, kwargs)
    ensures NeverRegistered(regs, value) ==>
              Route(Replay(map[], regs), defaultFunc, value, args, kwargs) == Default(defaultFunc, value, args, kwargs)
  {
    ReplayLookup(map[], regs, value);
  }

  /** Registering a key changes how that key routes and no other. */
  lemma RegisterAffectsOnlyItsKey<V, H>(registry: map<V, H>, defaultFunc: H, key: V, handler: H, value: V, args: seq<V>, kwargs: map<string, V>)
    ensures Route(Registered(registry, key, handler), defaultFunc, key, args, kwargs) == Matched(handler, args, kwargs)
    ensures value != key ==>
              Route(Registered(registry, key, handler), defaultFunc, value, args, kwargs)
              == Route(registry, defaultFunc, value, args, kwargs)
  {
  }

  /** The dispatcher object: a mutable registry and a default handler. */
  class Dispatcher<V(==), H> {
    var registry: map<V, H>
    var defaultFunc: H
    /** The registrations made so far, oldest first. */
    ghost var history: seq<Registration<V, H>>

    ghost predicate Valid()
      reads this
    {
      registry == Replay(map[], history)
    }

    /** A new dispatcher has no registrations and the given default handler. */
    constructor (defaultFunc: H)
      ensures Valid()
      ensures registry == map[] && history == []
      ensures this.defaultFunc == defaultFunc
    {
      registry := map[];
      this.defaultFunc := defaultFunc;
      history := [];
    }

    /** `register(value)`: returns the decorator that binds `value` in this
        dispatcher. Creating the decorator changes nothing. */
    method Register(value: V) returns (d: Decorator<V, H>)
      ensures d.owner == this && d.key == value
    {
      d := Decorator(this, value);
    }

    /** A dispatch call: selects the handler and its arguments from the
        current registry without changing anything. */
    method Call(value: V, args: seq<V>, kwargs: map<string, V>) returns (s: Selection<V, H>)
      ensures s == Route(registry, defaultFunc, value, args, kwargs)
      ensures Valid() ==> forall i :: IsLastFor(history, value, i) ==> s == Matched(history[i].handler, args, kwargs)
      ensures Valid() ==> NeverRegistered(history, value) ==> s == Default(defaultFunc, value, args, kwargs)
    {
      s := Route(registry, defaultFunc, value, args, kwargs);
      if Valid() {
        RouteAfterRegistrations(history, defaultFunc, value, args, kwargs);
      }
    }
  }

  /** The decorator returned by `register(key)` on dispatcher `owner`. */
  datatype Decorator<V(==), H> = Decorator(owner: Dispatcher<V, H>, key: V)
  {
    /** Applying the decorator to a handler stores `key -> func` in the
        owner's registry, leaves the default handler alone, and returns the
        handler unchanged. */
    method Apply(func: H) returns (r: H)
      requires owner.Valid()
      modifies owner
      ensures owner.Valid()
      ensures r == func
      ensures owner.registry == Registered(old(owner.registry), key, func)
      ensures owner.history == old(owner.history) + [Registration(key, func)]
      ensures owner.defaultFunc == old(owner.defaultFunc)
    {
      owner.registry := Registered(owner.registry, key, func);
      owner.history := owner.history + [Registration(key, func)];
      assert (owner.history)[..|owner.history| - 1] == old(owner.history);
      r := func;
    }
  }

  /** `dispatch_on_first_arg`: wraps a default handler in a new dispatcher. */
  method DispatchOnFirstArg<V(==), H>(func: H) returns (d: Dispatcher<V, H>)
    ensures fresh(d) && d.Valid()
    ensures d.registry == map[] && d.history == [] && d.defaultFunc == func
  {
    d := new Dispatcher(func);
  }
}
