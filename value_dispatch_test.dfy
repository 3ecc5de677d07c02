/**
 The usage scenario of the dispatcher: a default handler that refuses every
 key it is given, and two handlers registered for the keys 1 and 2.

 The handlers' bodies are modelled by `Invoke` only as far as the scenario
 needs: a handler accepts a call when the positional arguments fill a prefix
 of its parameters and the keyword arguments name exactly the rest.
 */
module ValueDispatchScenario {
  import opened ValueDispatch

  /** The three handlers of the scenario. */
  datatype TestHandler = NotImplementedHandler | Handler1 | Handler2

  /** What calling a handler does: returns a greeting with the values bound to
      `a` and `b` (the text `greeting + ", a=" + a + ", b=" + b`), raises
      an error with a message, or fails to bind its arguments. */
  datatype Outcome = Returned(greeting: string, a: int, b: int) | Raised(message: string) | BindError

  /** A function with parameters `params` (no defaults) accepts `pos` and `kw`:
      the positional arguments fill a prefix of the parameters and the keyword
      arguments name exactly the rest. */
  predicate Accepts(params: seq<string>, pos: seq<int>, kw: map<string, int>)
  {
    |pos| <= |params| && kw.Keys == set i | |pos| <= i < |params| :: params[i]
  }

  /** No parameter name occurs twice. */
  ghost predicate Distinct(params: seq<string>)
  {
    forall i, j :: 0 <= i < j < |params| ==> params[i] != params[j]
  }

  /** Python's binding rule, stated parameter by parameter: there are no
      surplus positional arguments, no keyword names an unknown parameter,
      and every parameter is bound exactly once, by position or by keyword. */
  ghost predicate BindsEachOnce(params: seq<string>, pos: seq<int>, kw: map<string, int>)
  {
    && |pos| <= |params|
    && (forall k :: k in kw ==> k in params)
    && (forall i :: 0 <= i < |params| ==> (i < |pos| <==> params[i] !in kw))
  }

  /** `Accepts` is Python's binding rule for parameters with distinct names. */
  lemma AcceptsIffBindsEachOnce(params: seq<string>, pos: seq<int>, kw: map<string, int>)
    requires Distinct(params)
    ensures Accepts(params, pos, kw) <==> BindsEachOnce(params, pos, kw)
  {
  }

  /** The value bound to parameter `i` when a call is accepted. */
  function ArgValue(params: seq<string>, pos: seq<int>, kw: map<string, int>, i: nat): int
    requires Accepts(params, pos, kw) && i < |params|
  {
    if i < |pos| then pos[i] else kw[params[i]]
  }

  /** The parameters of each handler: `handler(key, a, b)`, `handler1(a, b)`
      and `handler2(a, b)`. */
  function Params(h: TestHandler): seq<string>
  {
    if h == NotImplementedHandler then ["key", "a", "b"] else ["a", "b"]
  }

  /** The parameter names of `handler1` and `handler2`, as a set: the fact
      `Invoke` needs to see that the keywords `a` and `b` bind them. */
  lemma PairNames()
    ensures (set i | 0 <= i < 2 :: ["a", "b"][i]) == {"a", "b"}
  {
    assert ["a", "b"][0] == "a" && ["a", "b"][1] == "b";
  }

  /** Calling the selected handler with the selected arguments: a call whose
      arguments do not bind fails; otherwise the default handler raises
      "Not implemented." and `handler1` and `handler2` return their greeting
      with the values bound to `a` and `b`. */
  function Invoke(s: Selection<int, TestHandler>): (o: Outcome)
    ensures o == BindError <==> !Accepts(Params(s.handler), s.Positional(), s.kwargs)
    ensures o.Raised? ==> s.handler == NotImplementedHandler && o.message == "Not implemented."
    ensures s.handler == NotImplementedHandler && Accepts(Params(s.handler), s.Positional(), s.kwargs) ==>
              o == Raised("Not implemented.")
    ensures s.handler != NotImplementedHandler && s.Positional() == [] && s.kwargs.Keys == {"a", "b"} ==>
              o == Returned(if s.handler == Handler1 then "This is handler 1" else "This is handler 2",
                            s.kwargs["a"], s.kwargs["b"])
  {
    PairNames();
    var params := Params(s.handler);
    var pos := s.Positional();
    if !Accepts(params, pos, s.kwargs) then BindError
    else
      match s.handler
      case NotImplementedHandler => Raised("Not implemented.")
      case Handler1 => Returned("This is handler 1", ArgValue(params, pos, s.kwargs, 0), ArgValue(params, pos, s.kwargs, 1))
      case Handler2 => Returned("This is handler 2", ArgValue(params, pos, s.kwargs, 0), ArgValue(params, pos, s.kwargs, 1))
  }

  /** The scenario: keys 1 and 2 reach their handlers with `a=1, b=2`, and
      key 3 reaches the default handler, which raises "Not implemented.". */
  method TestDispatchOnFirstArg() returns (s1: Selection<int, TestHandler>, s2: Selection<int, TestHandler>, s3: Selection<int, TestHandler>,
                                          o1: Outcome, o2: Outcome, o3: Outcome)
    ensures s1 == Matched(Handler1, [], map["a" := 1, "b" := 2])
    ensures s2 == Matched(Handler2, [], map["a" := 1, "b" := 2])
    ensures s3 == Default(NotImplementedHandler, 3, [], map["a" := 1, "b" := 2])
    ensures o1 == Returned("This is handler 1", 1, 2)
    ensures o2 == Returned("This is handler 2", 1, 2)
    ensures o3 == Raised("Not implemented.")
  {
    var handler := DispatchOnFirstArg<int, TestHandler>(NotImplementedHandler);
    var register1 := handler.Register(1);
    var handler1 := register1.Apply(Handler1);
    assert handler1 == Handler1;
    var register2 := handler.Register(2);
    var handler2 := register2.Apply(Handler2);
    assert handler2 == Handler2;
    var kw := map["a" := 1, "b" := 2];
    s1 := handler.Call(1, [], kw);
    s2 := handler.Call(2, [], kw);
    s3 := handler.Call(3, [], kw);
    PairNames();
    assert (set i | 1 <= i < 3 :: ["key", "a", "b"][i]) == {"a", "b"} by {
      assert ["key", "a", "b"][1] == "a" && ["key", "a", "b"][2] == "b";
    }
    o1 := Invoke(s1);
    o2 := Invoke(s2);
    o3 := Invoke(s3);
  }

  /** Why the key must not reach a matched handler: `handler1(a, b)` given the
      key as well as `a=1, b=2` cannot bind its arguments. */
  lemma ForwardingKeyToMatchedHandlerFails()
    ensures Invoke(Matched(Handler1, [1], map["a" := 1, "b" := 2])) == BindError
  {
    var kw := map["a" := 1, "b" := 2];
    assert "a" in kw.Keys;
    assert "a" !in (set i | 1 <= i < 2 :: ["a", "b"][i]);
    assert !Accepts(["a", "b"], [1], kw);
  }
}
