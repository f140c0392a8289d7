/**
 `SyncLocalRpcOperation`: an operation whose work runs to completion inside the
 invocation. Whatever `InvokeSync` does (returns, throws a WAMP error, throws
 anything else) is reported through the router callback before `InnerInvoke`
 returns, and no cancellation handle is ever handed back.

 `InvokeSync` is abstract in the source; the model takes its outcome as an
 input. `GetResultArguments` and `ConvertExceptionToRuntimeException` belong to
 `LocalRpcOperation`, which is not part of this model: they are parameters, and
 so is what the router callback's result call throws.
 */
module SyncOperation {
  import opened Wrappers
  import opened Values
  import Callee

  /** A `WampException`: an error URI with its payload, or the runtime error a foreign exception becomes. */
  datatype WampException =
    | Raised(errorUri: string, details: Message, arguments: seq<Message>)
    | RpcRuntime(message: string)  // WampRpcRuntimeException

  /** An exception that is not a `WampException`. */
  datatype ClrException = ClrException(typeName: string, message: string)

  /** Anything `InvokeSync` can throw. */
  datatype Exception = Wamp(wamp: WampException) | Other(clr: ClrException)

  /** How `InvokeSync` ends: a result with the out/ref values by parameter name, or an exception. */
  datatype SyncOutcome =
    | Returned(result: Value, outputs: map<string, Value>)
    | Threw(exception: Exception)

  /** `YieldOptions`: opaque apart from whether it is the freshly constructed default. */
  datatype YieldOptions = YieldOptions(fields: Message)

  /** `new YieldOptions()`. */
  const DefaultYieldOptions: YieldOptions := YieldOptions(Message([]))

  /** A call on the router callback (`IWampRawRpcOperationRouterCallback`). */
  datatype Callback =
    | ResultCallback(options: YieldOptions, arguments: seq<Value>, argumentsKeywords: map<string, Value>)
    | ErrorCallback(error: WampException)

  /**
   What a stretch of the operation did: the calls it made on the router
   callback, in order, and the exception it ended with, if any.
   */
  datatype Attempt = Attempt(calls: seq<Callback>, thrown: Option<Exception>)

  /**
   `LocalRpcOperation.GetResultArguments`: the positional results a return value
   yields, or the exception it throws while producing them.
   */
  type ResultArguments = Value -> Result<seq<Value>, Exception>

  /** `LocalRpcOperation.ConvertExceptionToRuntimeException`. */
  type Converter = ClrException -> WampException

  /** `SupportsCancellation`: a synchronous operation cannot be cancelled. */
  function SupportsCancellation(): (b: bool)
    ensures !b
  {
    false
  }

  /** `GetResultArgumentKeywords`: the keyword results are exactly the out/ref values. */
  function GetResultArgumentKeywords(result: Value, outputs: map<string, Value>): (r: map<string, Value>)
    ensures r.Keys == outputs.Keys
    ensures forall name :: name in outputs ==> r[name] == outputs[name]
  {
    outputs
  }

  /**
   `CallResult`: computes the positional results of `result` and, when that does
   not throw, makes one result call on the router callback carrying the given
   yield options (a fresh default when none are given), those results and the
   keyword results. `delivery` is what that call on the router callback throws,
   if anything; it ends the attempt. When computing the positional results
   throws, no call is made and that exception ends the attempt.
   */
  function CallResult(result: Value, outputs: map<string, Value>, yieldOptions: Option<YieldOptions>,
                      getResultArguments: ResultArguments, delivery: Option<Exception>): (r: Attempt)
    ensures getResultArguments(result).Failure? ==> r == Attempt([], Some(getResultArguments(result).error))
    ensures getResultArguments(result).Success? ==>
      && |r.calls| == 1 && r.calls[0].ResultCallback?
      && r.calls[0].arguments == getResultArguments(result).value
      && r.calls[0].argumentsKeywords == outputs
      && (yieldOptions.Some? ==> r.calls[0].options == yieldOptions.value)
      && (yieldOptions.None? ==> r.calls[0].options == DefaultYieldOptions)
      && r.thrown == delivery
  {
    match getResultArguments(result)
    case Failure(ex) => Attempt([], Some(ex))
    case Success(arguments) =>
      Attempt([ResultCallback(yieldOptions.GetOr(DefaultYieldOptions), arguments,
                              GetResultArgumentKeywords(result, outputs))], delivery)
  }

  /**
   `HandleMethodOutput`: reports the result without yield options and returns
   no handle; whatever the reporting throws is thrown on.
   */
  function HandleMethodOutput(result: Value, outputs: map<string, Value>, getResultArguments: ResultArguments,
                              delivery: Option<Exception>): (r: (Attempt, Option<Callee.Handle>))
    ensures |r.0.calls| <= 1
    ensures forall c :: c in r.0.calls ==>
              c.ResultCallback? && c.options == DefaultYieldOptions && c.argumentsKeywords == outputs
    ensures getResultArguments(result).Success? ==>
              r.0.calls == [ResultCallback(DefaultYieldOptions, getResultArguments(result).value, outputs)]
    ensures getResultArguments(result).Failure? ==> r.0.calls == []
    ensures r.0.thrown.None? <==> getResultArguments(result).Success? && delivery.None?
    ensures r.1 == None
  {
    (CallResult(result, outputs, None, getResultArguments, delivery), None)
  }

  /** `HandleException(WampException)`: the exception itself is the reported error. */
  function HandleWampException(ex: WampException): (r: Callback)
    ensures r.ErrorCallback? && r.error == ex
  {
    ErrorCallback(ex)
  }

  /** `HandleException(Exception)`: any other exception is converted before it is reported. */
  function HandleOtherException(ex: ClrException, convert: Converter): (r: Callback)
    ensures r.ErrorCallback? && r.error == convert(ex)
  {
    ErrorCallback(convert(ex))
  }

  /**
   The two `catch` clauses of `InnerInvoke`: the first takes WAMP exceptions,
   the second everything else.
   */
  function Catch(ex: Exception, convert: Converter): (r: Callback)
    ensures r.ErrorCallback?
    ensures ex.Wamp? ==> r.error == ex.wamp
    ensures ex.Other? ==> r.error == convert(ex.clr)
  {
    match ex
    case Wamp(w) => HandleWampException(w)
    case Other(clr) => HandleOtherException(clr, convert)
  }

  /**
   `InnerInvoke`. The `try` covers both `InvokeSync` and the reporting of its
   result, so an exception from either is caught and reported as an error. The
   operation never hands back a cancellation handle. `outcome` is how
   `InvokeSync` ended; `delivery` is what the router callback's result call
   throws, if anything.
   */
  function InnerInvoke(outcome: SyncOutcome, getResultArguments: ResultArguments, delivery: Option<Exception>,
                       convert: Converter): (r: (seq<Callback>, Option<Callee.Handle>))
    ensures r.1 == None
    ensures 1 <= |r.0| <= 2
    // a result call is made exactly when the method returned and its results could be computed
    ensures r.0[0].ResultCallback?
            <==> outcome.Returned? && getResultArguments(outcome.result).Success?
    ensures outcome.Returned? && getResultArguments(outcome.result).Success? ==>
      r.0[0] == ResultCallback(DefaultYieldOptions, getResultArguments(outcome.result).value, outcome.outputs)
    // an error call is made, last, exactly when something in the `try` threw
    ensures r.0[|r.0| - 1].ErrorCallback?
            <==> outcome.Threw? || getResultArguments(outcome.result).Failure? || delivery.Some?
    ensures |r.0| == 2 <==> outcome.Returned? && getResultArguments(outcome.result).Success? && delivery.Some?
    // and it reports the exception that was thrown, through the clause for its class
    ensures outcome.Threw? ==> r.0 == [Catch(outcome.exception, convert)]
    ensures outcome.Returned? && getResultArguments(outcome.result).Failure? ==>
      r.0 == [Catch(getResultArguments(outcome.result).error, convert)]
    ensures outcome.Returned? && getResultArguments(outcome.result).Success? && delivery.Some? ==>
      r.0[1] == Catch(delivery.value, convert)
  {
    match outcome
    case Returned(result, outputs) =>
      var (attempt, handle) := HandleMethodOutput(result, outputs, getResultArguments, delivery);
      (match attempt.thrown
       case None => (attempt.calls, handle)
       case Some(ex) => (attempt.calls + [Catch(ex, convert)], None))
    case Threw(ex) => ([Catch(ex, convert)], None)
  }

  /**
   The reported error tells the two exception classes apart as far as the
   converter does: a WAMP exception is never converted, so when the converter
   only yields runtime errors, a non-runtime error reported came from the
   operation itself.
   */
  lemma ErrorOrigin(outcome: SyncOutcome, getResultArguments: ResultArguments, delivery: Option<Exception>,
                    convert: Converter)
    requires forall x :: convert(x).RpcRuntime?
    requires outcome.Threw?
    ensures var c := InnerInvoke(outcome, getResultArguments, delivery, convert).0[0];
            c.ErrorCallback? && (c.error.Raised? ==> outcome.exception == Wamp(c.error))
  {
  }

  /**
   A synchronous operation is never tracked by the callee: whatever `InvokeSync`
   and the reporting do, the handle `InnerInvoke` returns leaves the invocation
   map and the reverse index unchanged, so a later INTERRUPT for the same id
   cancels nothing.
   */
  lemma SyncInvocationIsNeverTracked(st: Callee.State, requestId: int, registrationId: int,
                                     details: Callee.InvocationDetails, arguments: Callee.Arguments,
                                     outcome: SyncOutcome, getResultArguments: ResultArguments,
                                     delivery: Option<Exception>, convert: Converter, interrupt: Message)
    ensures var handle := InnerInvoke(outcome, getResultArguments, delivery, convert).1;
            var r := Callee.Invocation(st, requestId, registrationId, details, arguments, handle);
            && r.invocations == st.invocations
            && r.reverse == st.reverse
            && (requestId !in st.invocations ==> Callee.Interrupt(r, requestId, interrupt) == r)
  {
  }
}
