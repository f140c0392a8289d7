/**
 The callee side of a WAMP session (`WampCallee<TMessage>`): the tables that
 correlate register/unregister requests with their acknowledgments, the registry
 of registered operations, and the tracker of running invocations.

 Every public method of the source is one transition on an immutable `State`.
 Treating each call as atomic is a choice of the model: the source locks only
 its updates of the reverse index, not the map writes around them. Calls the callee makes on the outside world, the server proxy,
 an operation's `Invoke` and a cancellation handle's `Cancel`, are appended to
 `log`. Whether the session is connected (`IWampClientConnectionMonitor`) is a
 parameter, and so is the request id the id mapper hands out.
 */
module Callee {
  import opened Wrappers
  import opened Values
  import C = Correlation

  /** A registered operation (`IWampRpcOperation`): its procedure URI and an identity for the handler. */
  datatype Operation = Operation(procedure: string, handler: nat)

  /** The cancellation handle (`IWampCancellableInvocation`) a running invocation returns. */
  datatype Handle = Handle(id: nat)

  /** `InvocationDetails`: the caller's procedure, when the router disclosed it, and everything else. */
  datatype InvocationDetails = InvocationDetails(procedure: Option<string>, other: Message)

  /** The arguments of an INVOCATION message: the three `Invocation` overloads. */
  datatype Arguments =
    | NoArguments
    | Positional(arguments: seq<Message>)
    | PositionalAndKeywords(arguments: seq<Message>, argumentsKeywords: map<string, Message>)

  /** `InvocationData`: the registration an invocation runs under and its cancellation handle. */
  datatype InvocationData = InvocationData(registrationId: int, cancellation: Handle)

  /** `UnregisterDisposable`: what a completed register task yields. */
  datatype Disposable = UnregisterDisposable(registrationId: int)

  /** A call the callee makes on a collaborator. */
  datatype Event =
    | SendRegister(requestId: int, options: Message, procedure: string)
    | SendUnregister(requestId: int, registrationId: int)
    | InvokeOperation(requestId: int, operation: Operation, details: InvocationDetails, arguments: Arguments)
    | Cancel(cancellation: Handle, interruptDetails: Message)

  /** `WampSessionNotEstablishedException`. */
  datatype CalleeError = SessionNotEstablished

  datatype State = State(
    registerRequests: C.Table<Operation, Disposable>,  // mPendingRegistrations
    unregisterRequests: C.Table<(), ()>,               // mPendingUnregistrations
    registrations: map<int, Operation>,                // mRegistrations
    invocations: map<int, InvocationData>,             // mInvocations
    reverse: map<int, set<int>>,                       // mRegistrationsToInvocations
    log: seq<Event>)

  // ---------------------------------------------------------------------------
  // The reverse index (registration id -> invocation ids)
  // ---------------------------------------------------------------------------

  /** The invocation ids the reverse index lists under registration `g`. */
  function Members(reverse: map<int, set<int>>, g: int): set<int> {
    if g in reverse then reverse[g] else {}
  }

  /** `mRegistrationsToInvocations.Add(g, i)`. */
  function IndexAdd(reverse: map<int, set<int>>, g: int, i: int): (r: map<int, set<int>>)
    ensures Members(r, g) == Members(reverse, g) + {i}
    ensures forall q :: q != g ==> Members(r, q) == Members(reverse, q)
  {
    reverse[g := Members(reverse, g) + {i}]
  }

  /** `mRegistrationsToInvocations.Remove(g, i)`; a registration left with no invocation is dropped. */
  function IndexRemove(reverse: map<int, set<int>>, g: int, i: int): (r: map<int, set<int>>)
    ensures Members(r, g) == Members(reverse, g) - {i}
    ensures forall q :: q != g ==> Members(r, q) == Members(reverse, q)
  {
    var rest := Members(reverse, g) - {i};
    if rest == {} then reverse - {g} else reverse[g := rest]
  }

  /**
   The invocation map and the reverse index agree: an invocation id is listed
   under registration `g` exactly when it is tracked with registration `g`.
   */
  ghost predicate IndexAgrees(invocations: map<int, InvocationData>, reverse: map<int, set<int>>) {
    && (forall i :: i in invocations ==> i in Members(reverse, invocations[i].registrationId))
    && (forall g, i :: i in Members(reverse, g) ==> i in invocations && invocations[i].registrationId == g)
  }

  ghost predicate Valid(st: State) {
    && C.Valid(st.registerRequests)
    && C.Valid(st.unregisterRequests)
    && IndexAgrees(st.invocations, st.reverse)
  }

  /** No task of either table disappeared or changed its outcome once resolved. */
  ghost predicate Settled(st: State, st': State) {
    && C.Settled(st.registerRequests, st'.registerRequests)
    && C.Settled(st.unregisterRequests, st'.unregisterRequests)
  }

  /** The callee as constructed: every table empty, nothing sent. */
  function Initial(): (st: State)
    ensures Valid(st)
    ensures st.registerRequests.pending == map[] && st.unregisterRequests.pending == map[]
    ensures st.registrations == map[] && st.invocations == map[] && st.reverse == map[] && st.log == []
  {
    State(C.Empty(), C.Empty(), map[], map[], map[], [])
  }

  // ---------------------------------------------------------------------------
  // Registration
  // ---------------------------------------------------------------------------

  /**
   `Register`: throws while disconnected, leaving every table as it was;
   otherwise stores a pending request under the mapper's `requestId`, sends
   REGISTER with that id and the operation's procedure, and returns the task.
   */
  function Register(st: State, connected: bool, operation: Operation, options: Message, requestId: int)
    : (r: Result<(State, nat), CalleeError>)
    requires requestId !in st.registerRequests.pending
    ensures !connected ==> r == Failure(SessionNotEstablished)
    ensures connected ==> r.Success?
    ensures connected ==>
      var st', task := r.value.0, r.value.1;
      && st'.registerRequests.pending == st.registerRequests.pending[requestId := C.Entry(operation, task)]
      && st'.registerRequests.tasks == st.registerRequests.tasks[task := C.Pending]
      && st'.log == st.log + [SendRegister(requestId, options, operation.procedure)]
      && st'.unregisterRequests == st.unregisterRequests
      && st'.registrations == st.registrations
      && st'.invocations == st.invocations
      && st'.reverse == st.reverse
    ensures connected && Valid(st) ==>
      && r.value.1 !in st.registerRequests.tasks
      && Valid(r.value.0)
      && Settled(st, r.value.0)
  {
    if !connected then Failure(SessionNotEstablished)
    else
      var (table, task) := C.Add(st.registerRequests, requestId, operation);
      Success((st.(registerRequests := table, log := st.log + [SendRegister(requestId, options, operation.procedure)]), task))
  }

  /**
   `Registered`: for a pending `requestId`, removes it, registers its operation
   under `registrationId` and completes its task with the disposable for that
   registration. A duplicate or late acknowledgment changes nothing.
   */
  function Registered(st: State, requestId: int, registrationId: int): (r: State)
    ensures requestId !in st.registerRequests.pending ==> r == st
    ensures requestId in st.registerRequests.pending ==>
      var e := st.registerRequests.pending[requestId];
      && r.registerRequests.pending == st.registerRequests.pending - {requestId}
      && r.registerRequests.tasks
         == st.registerRequests.tasks[e.task := C.Completed(UnregisterDisposable(registrationId))]
      && r.registrations == st.registrations[registrationId := e.payload]
      && r.unregisterRequests == st.unregisterRequests
      && r.invocations == st.invocations
      && r.reverse == st.reverse
      && r.log == st.log
    ensures Valid(st) ==> Valid(r) && Settled(st, r)
  {
    var (table, operation) := C.Complete(st.registerRequests, requestId, UnregisterDisposable(registrationId));
    match operation
    case None => st
    case Some(op) => st.(registerRequests := table, registrations := st.registrations[registrationId := op])
  }

  /**
   `RegisterError` (all three arities): for a pending `requestId`, removes it and
   faults its task with the protocol error. Registrations, invocations and the
   reverse index are untouched; an unknown id changes nothing.
   */
  function RegisterError(st: State, requestId: int, details: Message, error: string, payload: C.ErrorPayload)
    : (r: State)
    ensures requestId !in st.registerRequests.pending ==> r == st
    ensures requestId in st.registerRequests.pending ==>
      && r.registerRequests.pending == st.registerRequests.pending - {requestId}
      && r.registerRequests.tasks == st.registerRequests.tasks[
           st.registerRequests.pending[requestId].task := C.Faulted(C.ProtocolError(details, error, payload))]
      && r == st.(registerRequests := r.registerRequests)
    ensures Valid(st) ==> Valid(r) && Settled(st, r)
  {
    st.(registerRequests := C.Fail(st.registerRequests, requestId, C.ProtocolError(details, error, payload)))
  }

  // ---------------------------------------------------------------------------
  // Unregistration
  // ---------------------------------------------------------------------------

  /**
   `Unregister`: stores a pending unregister request under the mapper's
   `requestId` and sends UNREGISTER for `registrationId`. The pending request
   does not remember which registration it is for.
   */
  function Unregister(st: State, registrationId: int, requestId: int): (r: (State, nat))
    requires requestId !in st.unregisterRequests.pending
    ensures r.0.unregisterRequests.pending == st.unregisterRequests.pending[requestId := C.Entry((), r.1)]
    ensures r.0.unregisterRequests.tasks == st.unregisterRequests.tasks[r.1 := C.Pending]
    ensures r.0.log == st.log + [SendUnregister(requestId, registrationId)]
    ensures r.0 == st.(unregisterRequests := r.0.unregisterRequests, log := r.0.log)
    ensures Valid(st) ==> r.1 !in st.unregisterRequests.tasks && Valid(r.0) && Settled(st, r.0)
  {
    var (table, task) := C.Add(st.unregisterRequests, requestId, ());
    (st.(unregisterRequests := table, log := st.log + [SendUnregister(requestId, registrationId)]), task)
  }

  /**
   `UnregisterDisposable.DisposeAsync`: throws while disconnected; otherwise
   unregisters the registration the disposable was created for. The registry is
   not touched until the acknowledgment arrives.
   */
  function Dispose(st: State, connected: bool, disposable: Disposable, requestId: int)
    : (r: Result<(State, nat), CalleeError>)
    requires requestId !in st.unregisterRequests.pending
    ensures !connected ==> r == Failure(SessionNotEstablished)
    ensures connected ==>
      && r.Success?
      && r.value.0.log == st.log + [SendUnregister(requestId, disposable.registrationId)]
      && r.value.0.unregisterRequests.pending == st.unregisterRequests.pending[requestId := C.Entry((), r.value.1)]
      && r.value.0.registrations == st.registrations
      && r.value.0.invocations == st.invocations
    ensures connected ==> r == Success(Unregister(st, disposable.registrationId, requestId))
  {
    if !connected then Failure(SessionNotEstablished)
    else Success(Unregister(st, disposable.registrationId, requestId))
  }

  /**
   `Unregistered`: for a pending `requestId`, removes it, completes its task and
   then, keyed by that same REQUEST id (the source does so; a registration id is
   not at hand), removes the registry entry and the reverse-index entry, along
   with every invocation the reverse index listed there. A duplicate or late
   acknowledgment changes nothing.
   */
  function Unregistered(st: State, requestId: int): (r: State)
    ensures requestId !in st.unregisterRequests.pending ==> r == st
    ensures requestId in st.unregisterRequests.pending ==>
      && r.unregisterRequests.pending == st.unregisterRequests.pending - {requestId}
      && r.unregisterRequests.tasks
         == st.unregisterRequests.tasks[st.unregisterRequests.pending[requestId].task := C.Completed(())]
      && r.registrations == st.registrations - {requestId}
      && r.reverse == st.reverse - {requestId}
      && r.invocations == st.invocations - Members(st.reverse, requestId)
      && r.registerRequests == st.registerRequests
      && r.log == st.log
    ensures Valid(st) ==> Valid(r) && Settled(st, r)
  {
    var (table, found) := C.Complete(st.unregisterRequests, requestId, ());
    if found.None? then st
    else
      var removed := Members(st.reverse, requestId);
      var r := st.(unregisterRequests := table,
                   registrations := st.registrations - {requestId},
                   reverse := st.reverse - {requestId},
                   invocations := st.invocations - removed);
      assert IndexAgrees(st.invocations, st.reverse) ==> IndexAgrees(r.invocations, r.reverse) by {
        if IndexAgrees(st.invocations, st.reverse) {
          forall g, i | i in Members(r.reverse, g)
            ensures i in r.invocations && r.invocations[i].registrationId == g
          {
            assert g != requestId && i in Members(st.reverse, g);
          }
        }
      }
      r
  }

  /**
   `UnregisterError` (all three arities): for a pending `requestId`, removes it and
   faults its task. The registration and its invocations stay; an unknown id
   changes nothing.
   */
  function UnregisterError(st: State, requestId: int, details: Message, error: string, payload: C.ErrorPayload)
    : (r: State)
    ensures requestId !in st.unregisterRequests.pending ==> r == st
    ensures requestId in st.unregisterRequests.pending ==>
      && r.unregisterRequests.pending == st.unregisterRequests.pending - {requestId}
      && r.unregisterRequests.tasks == st.unregisterRequests.tasks[
           st.unregisterRequests.pending[requestId].task := C.Faulted(C.ProtocolError(details, error, payload))]
      && r == st.(unregisterRequests := r.unregisterRequests)
    ensures Valid(st) ==> Valid(r) && Settled(st, r)
  {
    st.(unregisterRequests := C.Fail(st.unregisterRequests, requestId, C.ProtocolError(details, error, payload)))
  }

  // ---------------------------------------------------------------------------
  // Invocations
  // ---------------------------------------------------------------------------

  /** The details handed to the operation: the caller's procedure if given, else the operation's own. */
  function WithProcedure(details: InvocationDetails, operation: Operation): (d: InvocationDetails)
    ensures d.procedure.Some?
    ensures details.procedure.Some? ==> d.procedure == details.procedure
    ensures details.procedure.None? ==> d.procedure == Some(operation.procedure)
    ensures d.other == details.other
  {
    details.(procedure := Some(details.procedure.GetOr(operation.procedure)))
  }

  /**
   `InvocationPattern`, shared by the three `Invocation` overloads. An unknown
   registration is ignored. Otherwise the registered operation is invoked with a
   callback bound to `requestId`, and `handle` is what that call of `Invoke`
   returned: a cancellation handle while the work is still running, or none.
   With a handle the invocation is tracked in the invocation map and under its
   registration in the reverse index; with none nothing is tracked.
   */
  function Invocation(st: State, requestId: int, registrationId: int, details: InvocationDetails,
                      arguments: Arguments, handle: Option<Handle>): (r: State)
    ensures registrationId !in st.registrations ==> r == st
    ensures registrationId in st.registrations ==>
      var operation := st.registrations[registrationId];
      && r.log == st.log + [InvokeOperation(requestId, operation, WithProcedure(details, operation), arguments)]
      && r.registerRequests == st.registerRequests
      && r.unregisterRequests == st.unregisterRequests
      && r.registrations == st.registrations
      && (handle.None? ==> r.invocations == st.invocations && r.reverse == st.reverse)
      && (handle.Some? ==>
            && r.invocations == st.invocations[requestId := InvocationData(registrationId, handle.value)]
            && Members(r.reverse, registrationId) == Members(st.reverse, registrationId) + {requestId}
            && (forall q :: q != registrationId ==> Members(r.reverse, q) == Members(st.reverse, q)))
    ensures Valid(st) && requestId !in st.invocations ==>
      && Valid(r)
      && Settled(st, r)
      && (requestId in r.invocations <==> registrationId in st.registrations && handle.Some?)
  {
    if registrationId !in st.registrations then st
    else
      var operation := st.registrations[registrationId];
      var st' := st.(log := st.log + [InvokeOperation(requestId, operation, WithProcedure(details, operation), arguments)]);
      match handle
      case None => st'
      case Some(h) =>
        var r := st'.(invocations := st.invocations[requestId := InvocationData(registrationId, h)],
                      reverse := IndexAdd(st.reverse, registrationId, requestId));
        assert IndexAgrees(st.invocations, st.reverse) && requestId !in st.invocations
               ==> IndexAgrees(r.invocations, r.reverse) by {
          if IndexAgrees(st.invocations, st.reverse) && requestId !in st.invocations {
            forall g, i | i in Members(r.reverse, g)
              ensures i in r.invocations && r.invocations[i].registrationId == g
            {
              if i != requestId {
                assert i in Members(st.reverse, g);
              }
            }
          }
        }
        r
  }

  /**
   `Interrupt`: for a tracked invocation, removes it from the invocation map and
   from the reverse index under its registration, and cancels its handle once.
   An id that is not tracked changes nothing.
   */
  function Interrupt(st: State, requestId: int, details: Message): (r: State)
    ensures requestId !in st.invocations ==> r == st
    ensures requestId in st.invocations ==>
      var data := st.invocations[requestId];
      && r.invocations == st.invocations - {requestId}
      && r.log == st.log + [Cancel(data.cancellation, details)]
      && Members(r.reverse, data.registrationId) == Members(st.reverse, data.registrationId) - {requestId}
      && (forall q :: q != data.registrationId ==> Members(r.reverse, q) == Members(st.reverse, q))
      && r.registerRequests == st.registerRequests
      && r.unregisterRequests == st.unregisterRequests
      && r.registrations == st.registrations
    ensures Valid(st) ==> Valid(r) && Settled(st, r)
  {
    if requestId !in st.invocations then st
    else
      var data := st.invocations[requestId];
      var r := st.(invocations := st.invocations - {requestId},
                   log := st.log + [Cancel(data.cancellation, details)],
                   reverse := IndexRemove(st.reverse, data.registrationId, requestId));
      assert IndexAgrees(st.invocations, st.reverse) ==> IndexAgrees(r.invocations, r.reverse) by {
        if IndexAgrees(st.invocations, st.reverse) {
          forall i | i in r.invocations
            ensures i in Members(r.reverse, r.invocations[i].registrationId)
          {
            assert i in Members(st.reverse, st.invocations[i].registrationId);
          }
        }
      }
      r
  }

  // ---------------------------------------------------------------------------
  // Connection loss
  // ---------------------------------------------------------------------------

  /** `Cleanup`: empties the registry, the invocation map and the reverse index. */
  function Cleanup(st: State): (r: State)
    ensures r.registrations == map[] && r.invocations == map[] && r.reverse == map[]
    ensures r.registerRequests == st.registerRequests && r.unregisterRequests == st.unregisterRequests
    ensures r.log == st.log
    ensures C.Valid(st.registerRequests) && C.Valid(st.unregisterRequests) ==> Valid(r)
  {
    st.(registrations := map[], invocations := map[], reverse := map[])
  }

  /**
   What both connection-loss handlers leave behind: every request that was
   pending is faulted with `error` and no longer pending, resolved tasks keep
   their outcome, and the registry, invocation map and reverse index are empty.
   */
  ghost predicate SweptBy(st: State, r: State, error: C.RequestError) {
    && r.registerRequests.pending == map[]
    && r.unregisterRequests.pending == map[]
    && r.registerRequests.tasks.Keys == st.registerRequests.tasks.Keys
    && r.unregisterRequests.tasks.Keys == st.unregisterRequests.tasks.Keys
    && (forall id :: id in st.registerRequests.pending && st.registerRequests.pending[id].task in st.registerRequests.tasks
                     ==> r.registerRequests.tasks[st.registerRequests.pending[id].task] == C.Faulted(error))
    && (forall id :: id in st.unregisterRequests.pending && st.unregisterRequests.pending[id].task in st.unregisterRequests.tasks
                     ==> r.unregisterRequests.tasks[st.unregisterRequests.pending[id].task] == C.Faulted(error))
    && r.registrations == map[]
    && r.invocations == map[]
    && r.reverse == map[]
    && r.log == st.log
  }

  /** Both tables faulted with `error`, then `Cleanup`. */
  function ConnectionLost(st: State, error: C.RequestError): (r: State)
    ensures SweptBy(st, r, error)
    ensures Valid(st) ==> Valid(r) && Settled(st, r)
  {
    Cleanup(st.(registerRequests := C.FailAll(st.registerRequests, error),
                unregisterRequests := C.FailAll(st.unregisterRequests, error)))
  }

  /** `OnConnectionError`: every pending request fails with the exception; the other tables are emptied. */
  function OnConnectionError(st: State, exception: string): (r: State)
    ensures SweptBy(st, r, C.ConnectionError(exception))
    ensures Valid(st) ==> Valid(r) && Settled(st, r)
  {
    ConnectionLost(st, C.ConnectionError(exception))
  }

  /** `OnConnectionBroken`: every pending request fails with the close information; the other tables are emptied. */
  function OnConnectionBroken(st: State, closeInfo: Message): (r: State)
    ensures SweptBy(st, r, C.ConnectionClosed(closeInfo))
    ensures Valid(st) ==> Valid(r) && Settled(st, r)
  {
    ConnectionLost(st, C.ConnectionClosed(closeInfo))
  }
}
