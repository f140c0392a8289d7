/**
 `SyncMethodInfoRpcOperation`: a synchronous operation built from a .NET method.
 Reflection is replaced by an abstract signature record; what remains is the
 descriptor the constructor derives from it (procedure, whether there is a
 result, the collection-result treatment, the parameter list) and the way
 `InvokeSync` turns what the method invocation did into an outcome.
 */
module MethodInfoOperation {
  import opened Wrappers
  import opened Values
  import S = SyncOperation

  /** `CollectionResultTreatment`. */
  datatype Treatment = SingleValue | Multivalued

  /** A reflected parameter (`ParameterInfo`). */
  datatype ParameterInfo = ParameterInfo(
    name: string, parameterType: string, defaultValue: Value, hasDefaultValue: bool, isOut: bool)

  /**
   A reflected method: its parameters in declaration order, whether it returns
   `void`, the `[WampResult]` attribute on its return parameter and the
   `[WampProcedure]` attribute on the method, each when present.
   */
  datatype MethodSignature = MethodSignature(
    parameters: seq<ParameterInfo>,
    returnsVoid: bool,
    resultAttribute: Option<Treatment>,
    procedureAttribute: Option<string>)

  /** `RpcParameter`: a parameter the caller supplies, with its position among those parameters. */
  datatype RpcParameter = RpcParameter(
    name: string, parameterType: string, defaultValue: Value, hasDefaultValue: bool, position: nat)

  /** What the constructor stores: `Procedure`, `HasResult`, `CollectionResultTreatment`, `Parameters`. */
  datatype Descriptor = Descriptor(
    procedure: string, hasResult: bool, treatment: Treatment, parameters: seq<RpcParameter>)

  // ---------------------------------------------------------------------------
  // The descriptor
  // ---------------------------------------------------------------------------

  /**
   `GetProcedure`: the procedure named by the `[WampProcedure]` attribute. A
   method without one is not rejected by the source, which then dereferences
   null; here it is a precondition.
   */
  function GetProcedure(m: MethodSignature): (procedure: string)
    requires m.procedureAttribute.Some?
    ensures m.procedureAttribute == Some(procedure)
  {
    m.procedureAttribute.value
  }

  /** `HasResult`: true exactly when the method does not return `void`. */
  function HasResult(m: MethodSignature): (b: bool)
    ensures b <==> !m.returnsVoid
  {
    !m.returnsVoid
  }

  /** `CollectionResultTreatment`: the attribute's treatment, `Multivalued` without the attribute. */
  function ResultTreatment(m: MethodSignature): (t: Treatment)
    ensures m.resultAttribute.Some? ==> t == m.resultAttribute.value
    ensures m.resultAttribute.None? ==> t == Multivalued
  {
    m.resultAttribute.GetOr(Multivalued)
  }

  /** The parameters that are not `out`, in declaration order (`Where(x => !x.IsOut)`). */
  function InParameters(ps: seq<ParameterInfo>): seq<ParameterInfo> {
    if ps == [] then []
    else if ps[0].isOut then InParameters(ps[1..])
    else [ps[0]] + InParameters(ps[1..])
  }

  /** How many parameters among `ps` are not `out`. */
  function CountIn(ps: seq<ParameterInfo>): nat {
    if ps == [] then 0 else (if ps[0].isOut then 0 else 1) + CountIn(ps[1..])
  }

  /** The `RpcParameter` for `p` at `position`: every field copied, the position added. */
  function ToRpcParameter(p: ParameterInfo, position: nat): RpcParameter {
    RpcParameter(p.name, p.parameterType, p.defaultValue, p.hasDefaultValue, position)
  }

  /** `Select((parameter, index) => …)` over `ps`, with indices starting at `start`. */
  function Numbered(ps: seq<ParameterInfo>, start: nat): (r: seq<RpcParameter>)
    ensures |r| == |ps|
    ensures forall k :: 0 <= k < |ps| ==> r[k] == ToRpcParameter(ps[k], start + k)
  {
    if ps == [] then [] else [ToRpcParameter(ps[0], start)] + Numbered(ps[1..], start + 1)
  }

  /** `mParameters`: the non-`out` parameters, numbered by their position among themselves. */
  function Parameters(m: MethodSignature): (r: seq<RpcParameter>)
    ensures |r| == |InParameters(m.parameters)| == CountIn(m.parameters)
    ensures forall k :: 0 <= k < |r| ==> r[k] == ToRpcParameter(InParameters(m.parameters)[k], k)
    ensures forall k :: 0 <= k < |r| ==> r[k].position == k
  {
    InParametersCount(m.parameters);
    Numbered(InParameters(m.parameters), 0)
  }

  /** The constructor of `SyncMethodInfoRpcOperation`, for a method that carries `[WampProcedure]`. */
  function Describe(m: MethodSignature): (d: Descriptor)
    requires m.procedureAttribute.Some?
    ensures Some(d.procedure) == m.procedureAttribute
    ensures d.hasResult <==> !m.returnsVoid
    ensures d.treatment == m.resultAttribute.GetOr(Multivalued)
    ensures |d.parameters| == |InParameters(m.parameters)| == CountIn(m.parameters)
    ensures forall k :: 0 <= k < |d.parameters| ==>
              d.parameters[k] == ToRpcParameter(InParameters(m.parameters)[k], k)
    ensures forall k :: 0 <= k < |d.parameters| ==> d.parameters[k].position == k
  {
    InParametersCount(m.parameters);
    Descriptor(GetProcedure(m), HasResult(m), ResultTreatment(m), Parameters(m))
  }

  // ---------------------------------------------------------------------------
  // Properties of the parameter list
  // ---------------------------------------------------------------------------

  /** As many parameters survive the filter as are not `out`, none of them `out`. */
  lemma {:induction false} InParametersCount(ps: seq<ParameterInfo>)
    ensures |InParameters(ps)| == CountIn(ps) <= |ps|
    ensures forall k :: 0 <= k < |InParameters(ps)| ==> !InParameters(ps)[k].isOut
  {
    if ps != [] {
      InParametersCount(ps[1..]);
    }
  }

  /** Filtering a concatenation filters each part. */
  lemma {:induction false} InParametersAppend(ps: seq<ParameterInfo>, qs: seq<ParameterInfo>)
    ensures InParameters(ps + qs) == InParameters(ps) + InParameters(qs)
    ensures CountIn(ps + qs) == CountIn(ps) + CountIn(qs)
  {
    if ps == [] {
      assert ps + qs == qs;
    } else {
      assert (ps + qs)[1..] == ps[1..] + qs;
      InParametersAppend(ps[1..], qs);
    }
  }

  /**
   Every non-`out` parameter, and nothing else, ends up in the list: the one
   declared at index `j` is found at the position that counts the non-`out`
   parameters declared before it, with its name, type and default copied. So
   declaration order is kept and the positions are 0, 1, … with no gap.
   */
  lemma ParameterPlacement(m: MethodSignature, j: nat)
    requires j < |m.parameters| && !m.parameters[j].isOut
    ensures var k := CountIn(m.parameters[..j]);
            k < |Parameters(m)| && Parameters(m)[k] == ToRpcParameter(m.parameters[j], k)
  {
    var ps := m.parameters;
    assert ps == ps[..j] + [ps[j]] + ps[j + 1..];
    InParametersAppend(ps[..j] + [ps[j]], ps[j + 1..]);
    InParametersAppend(ps[..j], [ps[j]]);
    assert InParameters([ps[j]]) == [ps[j]];
    InParametersCount(ps[..j]);
  }

  /** Conversely every entry of the list comes from a non-`out` parameter placed as above. */
  lemma ParameterOrigin(m: MethodSignature, k: nat)
    requires k < |Parameters(m)|
    ensures exists j :: 0 <= j < |m.parameters| && !m.parameters[j].isOut && CountIn(m.parameters[..j]) == k
  {
    var j := IndexOfInParameter(m.parameters, k);
    ParameterPlacement(m, j);
  }

  /** The declaration index of the `k`-th non-`out` parameter. */
  function IndexOfInParameter(ps: seq<ParameterInfo>, k: nat): (j: nat)
    requires k < |InParameters(ps)|
    ensures j < |ps| && !ps[j].isOut && CountIn(ps[..j]) == k
    decreases |ps|
  {
    assert ps != [];
    if ps[0].isOut then
      var j' := IndexOfInParameter(ps[1..], k);
      assert ps[..j' + 1] == [ps[0]] + ps[1..][..j'];
      InParametersAppend([ps[0]], ps[1..][..j']);
      j' + 1
    else if k == 0 then
      assert ps[..0] == [];
      0
    else
      var j' := IndexOfInParameter(ps[1..], k - 1);
      assert ps[..j' + 1] == [ps[0]] + ps[1..][..j'];
      InParametersAppend([ps[0]], ps[1..][..j']);
      j' + 1
  }

  /**
   The constructor's `Where(…).Select(…).ToArray()` as a loop: one pass over the
   declared parameters, numbering the non-`out` ones as they are met.
   */
  method BuildParameters(ps: seq<ParameterInfo>) returns (r: seq<RpcParameter>)
    ensures |r| == CountIn(ps)
    ensures r == Numbered(InParameters(ps), 0)
  {
    r := [];
    var i := 0;
    while i < |ps|
      invariant 0 <= i <= |ps|
      invariant r == Numbered(InParameters(ps[..i]), 0)
    {
      BuildStep(ps, i);
      if !ps[i].isOut {
        r := r + [ToRpcParameter(ps[i], |r|)];
      }
      i := i + 1;
    }
    assert ps[..i] == ps;
    InParametersCount(ps);
  }

  /** One more declared parameter extends the numbered list by itself, at the next position, unless it is `out`. */
  lemma BuildStep(ps: seq<ParameterInfo>, i: nat)
    requires i < |ps|
    ensures var before := InParameters(ps[..i]);
            Numbered(InParameters(ps[..i + 1]), 0)
            == Numbered(before, 0) + (if ps[i].isOut then [] else [ToRpcParameter(ps[i], |before|)])
  {
    var before := InParameters(ps[..i]);
    InParametersSnoc(ps, i);
    if ps[i].isOut {
      assert InParameters(ps[..i + 1]) == before;
    } else {
      assert InParameters(ps[..i + 1]) == before + [ps[i]];
      NumberedSnoc(before, ps[i], 0);
    }
  }

  /** One more declared parameter adds itself to the filtered list exactly when it is not `out`. */
  lemma InParametersSnoc(ps: seq<ParameterInfo>, i: nat)
    requires i < |ps|
    ensures InParameters(ps[..i + 1]) == InParameters(ps[..i]) + (if ps[i].isOut then [] else [ps[i]])
  {
    assert ps[..i + 1] == ps[..i] + [ps[i]];
    InParametersAppend(ps[..i], [ps[i]]);
    assert [ps[i]][1..] == [];
  }

  /** Numbering one more parameter gives it the next position. */
  lemma {:induction false} NumberedSnoc(xs: seq<ParameterInfo>, x: ParameterInfo, start: nat)
    ensures Numbered(xs + [x], start) == Numbered(xs, start) + [ToRpcParameter(x, start + |xs|)]
    decreases |xs|
  {
    if xs == [] {
      assert xs + [x] == [x];
    } else {
      assert (xs + [x])[1..] == xs[1..] + [x];
      NumberedSnoc(xs[1..], x, start + 1);
    }
  }

  // ---------------------------------------------------------------------------
  // InvokeSync
  // ---------------------------------------------------------------------------

  /**
   What happens inside `InvokeSync`:
   - `ThrewOutsideCatch`: an exception that no `catch` of `InvokeSync` handles,
     so it leaves `InvokeSync` as it is. That is an exception from unpacking the
     arguments or building the parameter array (before the `try`), one the
     reflected call throws itself without wrapping it (an `ArgumentException`,
     `TargetParameterCountException` or `TargetException` for a mismatched call),
     or one from reading back the out/ref values (inside the `try`, but not a
     `TargetInvocationException`);
   - `Invoked`: the method returned, with the out/ref values by name;
   - `TargetInvocation`: the method itself threw, which reflection wraps in a
     `TargetInvocationException` around `inner`.
   */
  datatype MethodOutcome =
    | ThrewOutsideCatch(exception: S.Exception)
    | Invoked(result: Value, outputs: map<string, Value>)
    | TargetInvocation(inner: S.Exception)

  /** `ConvertExceptionToRuntimeException`: a runtime error carrying the exception's message. */
  function ConvertExceptionToRuntimeException(ex: S.ClrException): (e: S.WampException)
    ensures e.RpcRuntime? && e.message == ex.message
  {
    S.RpcRuntime(ex.message)
  }

  /**
   `InvokeSync`: a result is returned with its outputs; an exception no `catch`
   handles propagates unchanged; a WAMP exception thrown by the method is
   rethrown as it is, and any other is converted to a runtime error with the same
   message.
   */
  function InvokeSync(outcome: MethodOutcome): (r: S.SyncOutcome)
    ensures outcome.Invoked? <==> r.Returned?
    ensures outcome.Invoked? ==> r == S.Returned(outcome.result, outcome.outputs)
    ensures outcome.ThrewOutsideCatch? ==> r == S.Threw(outcome.exception)
    ensures outcome.TargetInvocation? && outcome.inner.Wamp? ==> r == S.Threw(outcome.inner)
    ensures outcome.TargetInvocation? && outcome.inner.Other? ==>
      r == S.Threw(S.Wamp(S.RpcRuntime(outcome.inner.clr.message)))
  {
    match outcome
    case ThrewOutsideCatch(ex) => S.Threw(ex)
    case Invoked(result, outputs) => S.Returned(result, outputs)
    case TargetInvocation(inner) =>
      if inner.Wamp? then S.Threw(inner)
      else S.Threw(S.Wamp(ConvertExceptionToRuntimeException(inner.clr)))
  }

  /**
   The method operation end to end (`InnerInvoke` around `InvokeSync`): a
   returning method yields its result with the out/ref values as keyword results;
   an exception the method itself throws reaches the caller as a WAMP error,
   unchanged when it is one and otherwise as a runtime error with its message.
   A non-WAMP exception that no `catch` of `InvokeSync` handles is converted by
   the base class instead.
   */
  lemma MethodInvocationReports(outcome: MethodOutcome, getResultArguments: S.ResultArguments,
                                delivery: Option<S.Exception>, convert: S.Converter)
    ensures var r := S.InnerInvoke(InvokeSync(outcome), getResultArguments, delivery, convert);
      && r.1 == None
      && (outcome.Invoked? && getResultArguments(outcome.result).Success? ==>
            r.0[0] == S.ResultCallback(S.DefaultYieldOptions, getResultArguments(outcome.result).value,
                                       outcome.outputs))
      && (outcome.TargetInvocation? && outcome.inner.Wamp? ==> r.0 == [S.ErrorCallback(outcome.inner.wamp)])
      && (outcome.TargetInvocation? && outcome.inner.Other? ==>
            r.0 == [S.ErrorCallback(S.RpcRuntime(outcome.inner.clr.message))])
      && (outcome.ThrewOutsideCatch? && outcome.exception.Wamp? ==>
            r.0 == [S.ErrorCallback(outcome.exception.wamp)])
      && (outcome.ThrewOutsideCatch? && outcome.exception.Other? ==>
            r.0 == [S.ErrorCallback(convert(outcome.exception.clr))])
  {
  }

  /**
   A method that throws never reaches the caller as a result, and an error with
   its own URI reaches the caller only when the method threw exactly that error:
   the base class's converter is never consulted.
   */
  lemma ThrowingMethodNeverYields(inner: S.Exception, getResultArguments: S.ResultArguments,
                                  delivery: Option<S.Exception>, convert: S.Converter)
    ensures var r := S.InnerInvoke(InvokeSync(TargetInvocation(inner)), getResultArguments, delivery, convert);
            && r.0 == [r.0[0]]
            && r.0[0].ErrorCallback?
            && (r.0[0].error.Raised? ==> inner == S.Wamp(r.0[0].error))
            && (inner.Other? ==> r.0[0].error == S.RpcRuntime(inner.clr.message))
  {
  }
}
