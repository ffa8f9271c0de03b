/** Mock actions: what a mocked function does once a call has matched. A
    return action hands back the value it was built with; an invoke action
    forwards the call to a delegate. */
module Actions {
  import opened Wrappers
  import opened Kinds
  import opened Values
  import opened Kunit

  /** The delegate of an invoke action: foreign code, kept as a function of
      the test handle, the call's parameters and their count. */
  type Invokable = (TestRef, seq<Value>, int) -> Value

  /** A `struct mock_action`. `Return` is the whole `DEFINE_RETURN_ACTION`
      family over the integer, char and pointer kinds; `bool` has its own
      variant because its value is not a number. */
  datatype Action =
    | ReturnBool(flag: bool)
    | Return(kind: Kind, ret: int)
    | Invoke(test: TestRef, invokable: Invokable)

  /** `paction->do_action(paction, params, len)`: `do_<type>_return` yields
      the stored value (the C code returns a pointer to it), `do_invoke` the
      delegate's result for the test the action was built for. */
  function DoAction(a: Action, params: seq<Value>, len: int): (r: Value)
    ensures a.ReturnBool? ==> r == Bool(a.flag)
    ensures a.Return? ==> r.Scalar? && r.n == a.ret
    ensures a.Invoke? ==> r == a.invokable(a.test, params, len)
  {
    match a
    case ReturnBool(b) => Bool(b)
    case Return(_, ret) => Scalar(ret)
    case Invoke(test, f) => f(test, params, len)
  }

  /** A return action pays no attention to the call it answers. */
  lemma ReturnIgnoresCall(a: Action, params: seq<Value>, len: int, params2: seq<Value>, len2: int)
    requires !a.Invoke?
    ensures DoAction(a, params, len) == DoAction(a, params2, len2)
  {
  }

  /** `kunit_bool_return`. */
  method NewBoolReturn(ret: bool) returns (r: Option<Action>)
    ensures r == None || r == Some(ReturnBool(ret))
    ensures r.Some? ==> forall params, len :: DoAction(r.value, params, len) == Bool(ret)
  {
    var ok := Alloc();
    if !ok {
      return None;
    }
    r := Some(ReturnBool(ret));
  }

  /** `kunit_<type>_return`: the value of kind `k` every call returns. */
  method NewReturn(k: Kind, ret: int) returns (r: Option<Action>)
    requires InRange(k, ret)
    ensures r == None || r == Some(Return(k, ret))
    ensures r.Some? ==> forall params, len :: DoAction(r.value, params, len) == Scalar(ret)
  {
    var ok := Alloc();
    if !ok {
      return None;
    }
    r := Some(Return(k, ret));
  }

  /** `invoke`: every call is answered by `invokable` with the test handle
      the action was built with. */
  method NewInvoke(test: TestRef, invokable: Invokable) returns (r: Option<Action>)
    ensures r == None || r == Some(Invoke(test, invokable))
    ensures r.Some? ==> forall params, len :: DoAction(r.value, params, len) == invokable(test, params, len)
  {
    var ok := Alloc();
    if !ok {
      return None;
    }
    r := Some(Invoke(test, invokable));
  }
}
