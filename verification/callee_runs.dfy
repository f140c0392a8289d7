/**
 Sequences of callee transitions: the consistency of the tables over any run,
 the no-op behaviour of late or repeated messages, and small concrete runs that
 show what the transitions do, including the request-id keyed `Unregistered`.
 */
module CalleeRuns {
  import opened Wrappers
  import opened Values
  import C = Correlation
  import opened Callee

  /**
   One public entry point of the callee, with the inputs the caller or the
   environment supplies. An invocation step carries what that call of the
   operation's `Invoke` returned, so every invocation has its own handle.
   */
  datatype Step =
    | RegisterStep(connected: bool, operation: Operation, options: Message, registerId: int)
    | RegisteredStep(requestId: int, registrationId: int)
    | RegisterErrorStep(requestId: int, details: Message, error: string, payload: C.ErrorPayload)
    | DisposeStep(connected: bool, disposable: Disposable, unregisterId: int)
    | UnregisteredStep(requestId: int)
    | UnregisterErrorStep(requestId: int, details: Message, error: string, payload: C.ErrorPayload)
    | InvocationStep(requestId: int, registrationId: int, invocationDetails: InvocationDetails, arguments: Arguments,
                     handle: Option<Handle>)
    | InterruptStep(requestId: int, interruptDetails: Message)
    | ConnectionErrorStep(exception: string)
    | ConnectionBrokenStep(closeInfo: Message)

  /**
   What the collaborators guarantee before a step: the id mapper hands out ids
   that are not pending, and the router never reuses the id of a running
   invocation.
   */
  predicate Admissible(st: State, step: Step) {
    match step
    case RegisterStep(_, _, _, id) => id !in st.registerRequests.pending
    case DisposeStep(_, _, id) => id !in st.unregisterRequests.pending
    case InvocationStep(id, _, _, _, _) => id !in st.invocations
    case _ => true
  }

  /** One step. A call that throws `SessionNotEstablished` leaves the state as it was. */
  function Apply(st: State, step: Step): (r: State)
    requires Admissible(st, step)
    ensures Valid(st) ==> Valid(r) && Settled(st, r)
  {
    match step
    case RegisterStep(connected, operation, options, id) =>
      (match Register(st, connected, operation, options, id)
       case Success((st', _)) => st'
       case Failure(_) => st)
    case RegisteredStep(id, g) => Registered(st, id, g)
    case RegisterErrorStep(id, details, error, payload) => RegisterError(st, id, details, error, payload)
    case DisposeStep(connected, disposable, id) =>
      (match Dispose(st, connected, disposable, id)
       case Success((st', _)) => st'
       case Failure(_) => st)
    case UnregisteredStep(id) => Unregistered(st, id)
    case UnregisterErrorStep(id, details, error, payload) => UnregisterError(st, id, details, error, payload)
    case InvocationStep(id, g, details, arguments, handle) => Invocation(st, id, g, details, arguments, handle)
    case InterruptStep(id, details) => Interrupt(st, id, details)
    case ConnectionErrorStep(exception) => OnConnectionError(st, exception)
    case ConnectionBrokenStep(closeInfo) => OnConnectionBroken(st, closeInfo)
  }

  /** The steps one after another; `None` when some step is not admissible where it is taken. */
  function Run(st: State, steps: seq<Step>): Option<State>
    decreases |steps|
  {
    if steps == [] then Some(st)
    else if !Admissible(st, steps[0]) then None
    else Run(Apply(st, steps[0]), steps[1..])
  }

  /** `Settled` composes: a resolved task keeps its outcome across two stretches. */
  lemma SettledTransitive(a: State, b: State, c: State)
    requires Settled(a, b) && Settled(b, c)
    ensures Settled(a, c)
  {
  }

  /**
   Over any admissible run from a consistent state, the tables stay consistent
   (pending entries own distinct pending tasks, and the invocation map agrees with
   the reverse index), and no task that was resolved before the run changes.
   */
  lemma {:induction false} RunPreservesValid(st: State, steps: seq<Step>)
    requires Valid(st)
    ensures Run(st, steps).Some? ==> Valid(Run(st, steps).value)
    ensures Run(st, steps).Some? ==> Settled(st, Run(st, steps).value)
    decreases |steps|
  {
    if steps != [] && Admissible(st, steps[0]) {
      var next := Apply(st, steps[0]);
      RunPreservesValid(next, steps[1..]);
      if Run(st, steps).Some? {
        SettledTransitive(st, next, Run(st, steps).value);
      }
    }
  }

  /** Every run from the freshly constructed callee keeps the tables consistent. */
  lemma InitialRunsAreValid(steps: seq<Step>)
    ensures Run(Initial(), steps).Some? ==> Valid(Run(Initial(), steps).value)
  {
    RunPreservesValid(Initial(), steps);
  }

  // ---------------------------------------------------------------------------
  // Late and repeated messages
  // ---------------------------------------------------------------------------

  /** A second REGISTERED for the same request changes nothing: the first one completed it. */
  lemma DuplicateRegisteredIsNoOp(st: State, requestId: int, g: int, g': int)
    ensures Registered(Registered(st, requestId, g), requestId, g') == Registered(st, requestId, g)
  {
  }

  /** A second UNREGISTERED for the same request changes nothing. */
  lemma DuplicateUnregisteredIsNoOp(st: State, requestId: int)
    ensures Unregistered(Unregistered(st, requestId), requestId) == Unregistered(st, requestId)
  {
  }

  /** An ERROR after the acknowledgment of the same request changes nothing, and vice versa. */
  lemma ErrorAfterAckIsNoOp(st: State, requestId: int, g: int, details: Message, error: string,
                            payload: C.ErrorPayload)
    ensures var a := Registered(st, requestId, g);
            RegisterError(a, requestId, details, error, payload) == a
    ensures var e := RegisterError(st, requestId, details, error, payload);
            Registered(e, requestId, g) == e
    ensures var a := Unregistered(st, requestId);
            UnregisterError(a, requestId, details, error, payload) == a
    ensures var e := UnregisterError(st, requestId, details, error, payload);
            Unregistered(e, requestId) == e
  {
  }

  /** A second INTERRUPT for the same invocation is a no-op: the handle is cancelled once. */
  lemma DoubleInterruptIsNoOp(st: State, requestId: int, d1: Message, d2: Message)
    ensures Interrupt(Interrupt(st, requestId, d1), requestId, d2) == Interrupt(st, requestId, d1)
    ensures requestId in st.invocations ==>
      |Interrupt(Interrupt(st, requestId, d1), requestId, d2).log| == |st.log| + 1
  {
  }

  /**
   After the connection is lost, whether by an error or by the session closing,
   every acknowledgment, error, invocation and interrupt that still arrives
   changes nothing: there is nothing pending, registered or running. So does a
   second loss of the connection.
   */
  lemma MessagesAfterConnectionLossAreNoOps(st: State, error: C.RequestError, step: Step)
    requires step.RegisteredStep? || step.RegisterErrorStep? || step.UnregisteredStep?
          || step.UnregisterErrorStep? || step.InvocationStep? || step.InterruptStep?
          || step.ConnectionErrorStep? || step.ConnectionBrokenStep?
    ensures var lost := ConnectionLost(st, error);
            Admissible(lost, step) && Apply(lost, step) == lost
  {
  }

  /** After connection loss no request is pending and every task of the run so far is resolved. */
  lemma ConnectionLossResolvesEverything(st: State, closeInfo: Message)
    requires Valid(st)
    ensures var r := OnConnectionBroken(st, closeInfo);
            && (forall k :: k in r.registerRequests.tasks ==> !r.registerRequests.tasks[k].Pending?)
            && (forall k :: k in r.unregisterRequests.tasks ==> !r.unregisterRequests.tasks[k].Pending?)
  {
  }

  // ---------------------------------------------------------------------------
  // Concrete runs
  // ---------------------------------------------------------------------------

  /**
   Register (request 1), REGISTERED as registration 100, dispose the returned
   disposable (unregister request 7), UNREGISTERED for request 7: because the
   acknowledgment is keyed by the request id, registration 100 is still in the
   registry, and an INVOCATION for it still reaches the operation.
   */
  lemma UnregisteredKeyedByRequestId(op: Operation, options: Message, details: InvocationDetails,
                                      handle: Option<Handle>)
    ensures
      var s1 := Register(Initial(), true, op, options, 1).value.0;
      var s2 := Registered(s1, 1, 100);
      var s3 := Dispose(s2, true, UnregisterDisposable(100), 7).value.0;
      var s4 := Unregistered(s3, 7);
      && s4.registrations == map[100 := op]
      && s4.unregisterRequests.pending == map[]
      && s4.log == [SendRegister(1, options, op.procedure), SendUnregister(7, 100)]
      && Invocation(s4, 5, 100, details, NoArguments, handle).log
         == s4.log + [InvokeOperation(5, op, WithProcedure(details, op), NoArguments)]
  {
  }

  /**
   When an unregister request id happens to equal a registration id, it is that
   registration that leaves the registry, with the invocations running under it.
   */
  lemma UnregisteredRemovesTheRegistrationNamedByTheRequestId(st: State, requestId: int)
    requires Valid(st)
    requires requestId in st.unregisterRequests.pending
    ensures var r := Unregistered(st, requestId);
            && requestId !in r.registrations
            && (forall i :: i in st.invocations && st.invocations[i].registrationId == requestId
                            ==> i !in r.invocations)
            && (forall i :: i in st.invocations && st.invocations[i].registrationId != requestId
                            ==> i in r.invocations && r.invocations[i] == st.invocations[i])
  {
  }

  /**
   An invocation whose operation returns a handle is tracked; an INTERRUPT then
   cancels that handle and forgets the invocation, leaving the reverse index as
   before the invocation.
   */
  lemma InvokeThenInterrupt(st: State, requestId: int, g: int, details: InvocationDetails,
                            arguments: Arguments, handle: Handle, interrupt: Message)
    requires Valid(st) && requestId !in st.invocations
    requires g in st.registrations
    ensures
      var s1 := Invocation(st, requestId, g, details, arguments, Some(handle));
      var s2 := Interrupt(s1, requestId, interrupt);
      && s1.invocations[requestId] == InvocationData(g, handle)
      && s2.invocations == st.invocations
      && (forall q :: Members(s2.reverse, q) == Members(st.reverse, q))
      && s2.log[|s2.log| - 1] == Cancel(handle, interrupt)
  {
  }

  /**
   Two invocations of the same registration each keep the handle their own call
   of `Invoke` returned: interrupting the second cancels the second handle and
   leaves the first invocation tracked with the first handle.
   */
  lemma EachInvocationKeepsItsOwnHandle(st: State, first: int, second: int, g: int, details: InvocationDetails,
                                        arguments: Arguments, h1: Handle, h2: Handle, interrupt: Message)
    requires Valid(st) && first !in st.invocations && second !in st.invocations && first != second
    requires g in st.registrations
    ensures
      var s1 := Invocation(st, first, g, details, arguments, Some(h1));
      var s2 := Invocation(s1, second, g, details, arguments, Some(h2));
      var s3 := Interrupt(s2, second, interrupt);
      && s2.invocations[first] == InvocationData(g, h1)
      && s2.invocations[second] == InvocationData(g, h2)
      && s3.log == s2.log + [Cancel(h2, interrupt)]
      && s3.invocations == st.invocations[first := InvocationData(g, h1)]
      && Members(s3.reverse, g) == Members(st.reverse, g) + {first}
  {
  }

  /**
   An invocation whose operation returns no handle is not tracked, so an
   INTERRUPT for it cancels nothing.
   */
  lemma UntrackedInvocationCannotBeInterrupted(st: State, requestId: int, g: int, details: InvocationDetails,
                                               arguments: Arguments, interrupt: Message)
    requires Valid(st) && requestId !in st.invocations
    ensures
      var s1 := Invocation(st, requestId, g, details, arguments, None);
      Interrupt(s1, requestId, interrupt) == s1
  {
  }
}
