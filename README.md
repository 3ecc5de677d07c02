# Value-keyed dispatcher

A model of `_ValueDispatcher` and `dispatch_on_first_arg`, the single-dispatch-on-value
helper of `taper_research.ftools`. A dispatcher holds a mutable registry from key values
to handlers and a default handler. `register(value)` returns a decorator that binds
`value` to the decorated handler and gives the handler back unchanged. Calling the
dispatcher with a key routes to the registered handler, which gets the remaining
arguments without the key, or, for an unregistered key, to the default handler, which
gets the key followed by the remaining arguments.

Module `ValueDispatch` (`value_dispatch.dfy`) holds the model:

- `Dispatcher` is a class with the `registry` map and the `defaultFunc` field of the
  source. A ghost `history` records every registration made, oldest first. `Valid()` states
  that the registry is what replaying that history on an empty registry gives.
- `Dispatcher.Register(value)` returns a `Decorator` value bound to the dispatcher and the
  key. `Decorator.Apply(func)` is the inner `decorator`: it updates the owner's registry
  in place and returns `func`.
- `Dispatcher.Call` is `__call__`. Handlers are not run. It returns a `Selection`:
  `Matched(handler, args, kwargs)` or `Default(handler, key, args, kwargs)`.
  `Selection.Positional()` gives the positional arguments the selected handler receives,
  so the key-forwarding asymmetry is stated on the argument list itself.
- `Route` is the routing decision as a function of the registry and the default handler.
  `Replay` and `ReplayLookup` relate a registry built by a sequence of registrations to
  an independent description: the last registration of each key.

Module `ValueDispatchScenario` (`value_dispatch_test.dfy`) models the doctest and
`test_dispatch_on_first_arg`. It has concrete handlers and a small model of what those
handlers do when called (`Invoke`).

Keys and argument values share one type parameter `V`, since in the source both are
arbitrary objects and the key is simply the first positional argument of the default
handler. Keyword arguments are a `map<string, V>`, which is passed on unchanged in both
branches. Handlers are an opaque type parameter `H`.

## Model

| member | source | states |
|---|---|---|
| `ValueDispatch.Dispatcher.constructor` | src/taper_research/ftools/_value_dispatch.py:12-14 | a new dispatcher has an empty registry, no registrations and the given default handler |
| `ValueDispatch.DispatchOnFirstArg` | src/taper_research/ftools/_value_dispatch.py:33-56 | the factory returns a fresh dispatcher with an empty registry whose default handler is the decorated function |
| `ValueDispatch.Dispatcher.Register` | src/taper_research/ftools/_value_dispatch.py:16-23 | `register(value)` changes nothing itself; it returns a decorator bound to this dispatcher and to `value` |
| `ValueDispatch.Decorator.Apply` | src/taper_research/ftools/_value_dispatch.py:19-21 | applying the decorator maps the key to `func` (overwriting any earlier handler, no error), keeps every other entry, records the registration, leaves the default handler unchanged, keeps `Valid()`, and returns `func` itself |
| `ValueDispatch.Registered` | src/taper_research/ftools/_value_dispatch.py:20 | after binding a key, that key maps to the new handler, the key set grows by exactly that key, and every other key keeps its handler |
| `ValueDispatch.ReplayLookup` | src/taper_research/ftools/_value_dispatch.py:19-20 | after a sequence of registrations, a key maps to the handler of its last registration; a key never registered keeps its starting presence and handler |
| `ValueDispatch.RegisteredOrNot` | src/taper_research/ftools/_value_dispatch.py:19-20 | a key was never registered exactly when it has no last registration, so the two cases of `ReplayLookup` cover every key |
| `ValueDispatch.ReplayKeys` | src/taper_research/ftools/_value_dispatch.py:19-20 | the registered keys are exactly the starting keys plus every key some registration bound |
| `ValueDispatch.LastWriteWins` | src/taper_research/ftools/_value_dispatch.py:20 | registering a key with `first` and then `second` gives the same registry as registering `second` alone |
| `ValueDispatch.RegisterTwiceSameAsOnce` | src/taper_research/ftools/_value_dispatch.py:20 | registering the same handler for the same key twice gives the same registry as registering it once |
| `ValueDispatch.DistinctKeysCommute` | src/taper_research/ftools/_value_dispatch.py:20 | registrations of different keys give the same registry in either order |
| `ValueDispatch.Route` | src/taper_research/ftools/_value_dispatch.py:25-30 | a key in the registry selects its handler, which gets the arguments without the key; any other key selects the default handler, which gets the key followed by the arguments; keyword arguments pass unchanged either way |
| `ValueDispatch.Dispatcher.Call` | src/taper_research/ftools/_value_dispatch.py:25-30 | dispatch changes nothing and returns the `Route` selection for the current state, so the same state and key always give the same selection; on a valid dispatcher the handler of the key's last registration is selected, and a never-registered key goes to the default handler with the key prepended |
| `ValueDispatch.RouteAfterRegistrations` | src/taper_research/ftools/_value_dispatch.py:19-30 | on a dispatcher built from a fresh one by a sequence of registrations, a key routes to the handler of its last registration without the key, and a never-registered key routes to the default handler with the key |
| `ValueDispatch.RegisterAffectsOnlyItsKey` | src/taper_research/ftools/_value_dispatch.py:20-30 | after registering a key, that key routes to the new handler, and every other key routes as it did before |
| `ValueDispatchScenario.TestDispatchOnFirstArg` | src/taper_research/ftools/_value_dispatch.py:59-81 | with handlers registered for 1 and 2, keys 1 and 2 reach `handler1` and `handler2` with `a=1, b=2` and no key; key 3 reaches the default handler with the key, and that handler raises "Not implemented." |
| `ValueDispatchScenario.AcceptsIffBindsEachOnce` | src/taper_research/ftools/_value_dispatch.py:60-78 | for parameters with distinct names, `Accepts` holds exactly when no positional argument is surplus, no keyword names an unknown parameter, and each parameter is bound once, by position or by keyword |
| `ValueDispatchScenario.Invoke` | src/taper_research/ftools/_value_dispatch.py:60-70 | a handler call whose arguments do not bind fails; the default handler raises "Not implemented." exactly when its arguments bind, and no other handler raises; `handler1` and `handler2` called with just `a` and `b` as keywords return "This is handler 1" and "This is handler 2" respectively, with the values bound to `a` and `b` |
| `ValueDispatchScenario.ForwardingKeyToMatchedHandlerFails` | src/taper_research/ftools/_value_dispatch.py:64-66 | `handler1(a, b)` called with the key and `a=1, b=2` cannot bind its arguments, which is why the key is not forwarded to a matched handler |

## Left out

- Running handlers: their return values, the exceptions they raise and how those
  propagate to the caller are ordinary call semantics. The model returns the selection
  instead. The scenario's `Invoke` models only the three test handlers.
- Python argument binding is modelled only in the scenario, for plain parameters
  without defaults. `*args`/`**kwargs` arity is not checked. The dispatcher checks no
  arity either.
- An unhashable key: Python raises `TypeError` when the decorator stores it and when
  `__call__` looks it up. Keys here always support equality, so neither call fails.
- A keyword argument named `value` or `self`: Python raises `TypeError` ("multiple
  values") because it collides with the parameters of `__call__`. `Dispatcher.Call`
  routes such a call like any other, since its keyword map is separate from the key.
- The f-string formatting of the test handlers: `Returned(greeting, a, b)` stands for
  the string `greeting, a=<a>, b=<b>`.
- Python hashing and equality quirks for dictionary keys, such as `1 == True`. Keys are
  a Dafny type with equality.
- The insertion order of the Python dictionary. Dispatch does not depend on it.
- Concurrent registration and dispatch. The source gives no synchronisation. The model
  is sequential.
- `utils/auto_tag.py`. It is a release script that runs `git`, reads `pyproject.toml`
  and prints instructions. It does not touch the dispatcher.
- The `__main__` entry point, which only runs the test function.
