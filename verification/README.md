# WampSharp callee core in Dafny

This project models the callee side of a WampSharp WAMP client and proves properties about the model. It covers four parts:

- **`WampCallee<TMessage>`**: the state machine that correlates REGISTER and UNREGISTER requests with their acknowledgments, keeps the registry of registered operations, and tracks running invocations so that an INTERRUPT can cancel them.
- **`StrictUriValidator`**: its three URI grammars.
- **`SyncLocalRpcOperation`**: the synchronous operation adapter, which reports a method's outcome through the router callback.
- **`SyncMethodInfoRpcOperation`**: the descriptor it derives from a reflected method, and how it translates exceptions.

Modules:

| file | module | what it holds |
|---|---|---|
| `wrappers.dfy` | `Wrappers` | `Option` (a nullable reference) and `Result` (a value or the exception thrown instead) |
| `values.dfy` | `Values` | Opaque payloads: a wire `Message` (`TMessage`) and an application `Value` |
| `correlation.dfy` | `Correlation` | A pending-request table: what the callee relies on from `WampRequestIdMapper` and `WampPendingRequest`. Each pending request id owns one task, which is `Pending` until it is completed or faulted exactly once. |
| `callee.dfy` | `Callee` | The callee state, described below. |
| `callee_runs.dfy` | `CalleeRuns` | Runs of steps: consistency over every run, late or repeated messages being no-ops, and concrete scenarios. |
| `strict_uri.dfy` | `StrictUri` | The three patterns, read two ways: as the regular expressions are written, and as conditions on the dot-separated components. The two readings are proved equivalent, and the grammars are related. |
| `sync_operation.dfy` | `SyncOperation` | `InnerInvoke` and its helpers, as a function from the outcome of `InvokeSync` (and of reporting its result) to the callbacks it emits and the handle it returns. |
| `method_info_operation.dfy` | `MethodInfoOperation` | The constructor's descriptor over an abstract method signature, a loop version of the parameter list, and `InvokeSync`'s exception translation. |

The callee state is one immutable record. It holds the two pending tables, the registry, the invocation map, the reverse index (registration id to invocation ids), and a log of calls made on collaborators (the server proxy, an operation's `Invoke`, and a handle's `Cancel`). Each public method of `WampCallee` is one transition. What an operation's `Invoke` returns for one invocation is an input of that invocation's transition, so every invocation carries its own handle. Treating each transition as atomic is a choice of the model, not a guarantee of the source: `WampCallee` locks only its updates of the reverse index.

The invariant `Callee.Valid` has two parts:

- Each pending table is consistent: every pending id owns a distinct `Pending` task, and every `Pending` task is owned by one.
- The invocation map and the reverse index agree: an invocation id is listed under registration `g` exactly when it is tracked with registration `g`.

Every transition preserves `Callee.Valid`. `Callee.Settled` states that a task, once resolved, never changes again.

`Unregistered` is modelled exactly as the code does it. When the acknowledgment arrives, it removes the registry entry and the reverse-index entry keyed by the **unregister request id**. A pending unregister request does not record which registration it was for, so after a normal unregister the registration stays in the registry. `CalleeRuns.UnregisteredKeyedByRequestId` shows this on a concrete run.

## Model

| member | source | states |
|---|---|---|
| Correlation.Empty | src/net45/WampSharp/WAMP2/V2/Client/Rpc/WampCallee.cs:26-33 | A new table has no pending request and no task, and is consistent |
| Correlation.Add | src/net45/WampSharp/WAMP2/V2/Client/Rpc/WampCallee.cs:62-64 | Adds exactly one pending entry under the given id, with a new `Pending` task that no earlier request used. Consistency is kept and no resolved task changes. |
| Correlation.Complete | src/net45/WampSharp/WAMP2/V2/Client/Rpc/WampCallee.cs:75-78 | For a pending id: removes it, completes its task with the value, and hands back its payload. For any other id: the table is unchanged and nothing is handed back. Consistency is kept. |
| Correlation.Fail | src/net45/WampSharp/WAMP2/V2/Client/Rpc/WampCallee.cs:221-224 | For a pending id: removes it and faults its task with the error. For any other id: unchanged. Consistency is kept. |
| Correlation.FailAll | src/net45/WampSharp/WAMP2/V2/Client/Rpc/WampCallee.cs:308-309 | Nothing is left pending. Every pending task is faulted with the error, every other task keeps its state, and on a consistent table no task remains `Pending`. A table with nothing pending is left exactly as it was. |
| Callee.IndexAdd | src/net45/WampSharp/WAMP2/V2/Client/Rpc/WampCallee.cs:210-213 | The reverse index gains the invocation under its registration; every other registration's set is unchanged |
| Callee.IndexRemove | src/net45/WampSharp/WAMP2/V2/Client/Rpc/WampCallee.cs:279-282 | The reverse index loses the invocation under its registration; every other registration's set is unchanged |
| Callee.Initial | src/net45/WampSharp/WAMP2/V2/Client/Rpc/WampCallee.cs:26-39 | The constructed callee has empty pending tables, an empty registry, invocation map and reverse index, has sent nothing, and satisfies the invariant |
| Callee.Register | src/net45/WampSharp/WAMP2/V2/Client/Rpc/WampCallee.cs:53-69 | While disconnected: throws `SessionNotEstablished` and changes no table. Otherwise: adds exactly one pending entry under the new id, with a new task; sends REGISTER with that same id and the operation's procedure; leaves every other table alone. |
| Callee.Registered | src/net45/WampSharp/WAMP2/V2/Client/Rpc/WampCallee.cs:72-80 | For a pending request: removes it, maps the registration id to that request's operation, and completes its task once with the disposable for that registration. A duplicate or late ack changes nothing. The invariant is kept. |
| Callee.RegisterError | src/net45/WampSharp/WAMP2/V2/Client/Rpc/WampCallee.cs:218-243 | Removes only the matching pending register request and faults its task with the protocol error. Everything else stays as it was; an unknown id is a no-op. |
| Callee.Unregister | src/net45/WampSharp/WAMP2/V2/Client/Rpc/WampCallee.cs:106-118 | Adds exactly one pending unregister entry with a new task and sends UNREGISTER with that id and the registration id. The registry, the invocations and the register table stay as they were. |
| Callee.Dispose | src/net45/WampSharp/WAMP2/V2/Client/Rpc/WampCallee.cs:95-103 | While disconnected: throws `SessionNotEstablished`. Otherwise: unregisters the disposable's registration. The registry is untouched until the ack arrives. When connected, the result is exactly `Unregister`'s, so its whole contract applies: one new `Pending` task, other tables unchanged, `Valid` and `Settled` kept. |
| Callee.Unregistered | src/net45/WampSharp/WAMP2/V2/Client/Rpc/WampCallee.cs:120-143 | For a pending request: removes it and completes its task; removes key `requestId` from the registry and from the reverse index; removes every invocation the index listed there. A duplicate or late ack changes nothing. The invariant is kept. |
| Callee.UnregisterError | src/net45/WampSharp/WAMP2/V2/Client/Rpc/WampCallee.cs:245-270 | Removes only the matching pending unregister request and faults its task. The registration and its invocations stay; an unknown id is a no-op. |
| Callee.WithProcedure | src/net45/WampSharp/WAMP2/V2/Client/Rpc/WampCallee.cs:199-202 | The operation is given the caller's procedure when the details carry one, and otherwise its own procedure. The other details are unchanged. |
| Callee.Invocation | src/net45/WampSharp/WAMP2/V2/Client/Rpc/WampCallee.cs:161-216 | An unknown registration changes nothing and emits nothing. Otherwise the operation is invoked once, with the caller's or its own procedure. The invocation is tracked with the handle that this call of `Invoke` returned, in the map and under its registration in the reverse index, if and only if a handle was returned. With a new invocation id the invariant is kept. |
| Callee.Interrupt | src/net45/WampSharp/WAMP2/V2/Client/Rpc/WampCallee.cs:272-284 | For a tracked invocation: removes it from the map and from its registration's index set, and logs exactly one `Cancel` of its handle. An untracked id changes nothing. The invariant is kept. |
| Callee.Cleanup | src/net45/WampSharp/WAMP2/V2/Client/Rpc/WampCallee.cs:321-331 | The registry, the invocation map and the reverse index become empty; the pending tables and the log are untouched |
| Callee.ConnectionLost | src/net45/WampSharp/WAMP2/V2/Client/Rpc/WampCallee.cs:304-331 | Nothing is pending. Every formerly pending task is faulted with the error. The registry, invocations and reverse index are empty. The invariant is kept and resolved tasks keep their outcome. |
| Callee.OnConnectionError | src/net45/WampSharp/WAMP2/V2/Client/Rpc/WampCallee.cs:304-312 | Every pending register and unregister request fails with the exception, and every other table is emptied |
| Callee.OnConnectionBroken | src/net45/WampSharp/WAMP2/V2/Client/Rpc/WampCallee.cs:314-319 | Every pending register and unregister request fails with the close information, and every other table is emptied |
| CalleeRuns.Apply | src/net45/WampSharp/WAMP2/V2/Client/Rpc/WampCallee.cs:53-331 | Any single public entry point, taken with the collaborators' guarantees, keeps the invariant and never changes a resolved task |
| CalleeRuns.RunPreservesValid | src/net45/WampSharp/WAMP2/V2/Client/Rpc/WampCallee.cs:53-331 | Over every admissible sequence of steps, the tables stay consistent and no task resolved before the run changes |
| CalleeRuns.InitialRunsAreValid | src/net45/WampSharp/WAMP2/V2/Client/Rpc/WampCallee.cs:42-51 | Every run from the constructed callee keeps the invariant |
| CalleeRuns.DuplicateRegisteredIsNoOp | src/net45/WampSharp/WAMP2/V2/Client/Rpc/WampCallee.cs:72-80 | A second REGISTERED for the same request, with any registration id, changes nothing |
| CalleeRuns.DuplicateUnregisteredIsNoOp | src/net45/WampSharp/WAMP2/V2/Client/Rpc/WampCallee.cs:120-143 | A second UNREGISTERED for the same request changes nothing |
| CalleeRuns.ErrorAfterAckIsNoOp | src/net45/WampSharp/WAMP2/V2/Client/Rpc/WampCallee.cs:218-270 | Once an ack or an ERROR has resolved a request, a later ERROR or ack for it changes nothing. This holds for both tables. |
| CalleeRuns.DoubleInterruptIsNoOp | src/net45/WampSharp/WAMP2/V2/Client/Rpc/WampCallee.cs:272-284 | A second INTERRUPT with the same id changes nothing, so the handle is cancelled exactly once |
| CalleeRuns.MessagesAfterConnectionLossAreNoOps | src/net45/WampSharp/WAMP2/V2/Client/Rpc/WampCallee.cs:304-331 | After the connection is lost, by an error or by the session closing, every ack, error, invocation and interrupt that still arrives is a no-op, and so is a second loss of the connection |
| CalleeRuns.ConnectionLossResolvesEverything | src/net45/WampSharp/WAMP2/V2/Client/Rpc/WampCallee.cs:314-319 | After the connection breaks, no task of either table is still `Pending` |
| CalleeRuns.UnregisteredKeyedByRequestId | src/net45/WampSharp/WAMP2/V2/Client/Rpc/WampCallee.cs:120-130 | The run register(1), REGISTERED(1, 100), dispose(7), UNREGISTERED(7) leaves registration 100 in the registry. An invocation for it still reaches the operation. |
| CalleeRuns.UnregisteredRemovesTheRegistrationNamedByTheRequestId | src/net45/WampSharp/WAMP2/V2/Client/Rpc/WampCallee.cs:125-139 | UNREGISTERED for request `q` removes registration `q` and exactly the invocations running under registration `q`; every other invocation survives unchanged |
| CalleeRuns.InvokeThenInterrupt | src/net45/WampSharp/WAMP2/V2/Client/Rpc/WampCallee.cs:206-213 | An invocation that returns a handle is tracked with it. INTERRUPT then cancels that handle and restores the invocation map and the reverse index. |
| CalleeRuns.EachInvocationKeepsItsOwnHandle | src/net45/WampSharp/WAMP2/V2/Client/Rpc/WampCallee.cs:204-213 | Two invocations of one registration are tracked with the handles their own `Invoke` calls returned. INTERRUPT of the second cancels the second handle and leaves the first tracked with the first handle. |
| CalleeRuns.UntrackedInvocationCannotBeInterrupted | src/net45/WampSharp/WAMP2/V2/Client/Rpc/WampCallee.cs:204-206 | An invocation whose `Invoke` returned no handle is not tracked, so an INTERRUPT for it cancels nothing |
| StrictUri.StarThenTail | src/net45/WampSharp/WAMP2/V2/Core/Uri/StrictUriValidator.cs:10-20 | The shared shape `^(item)*(tail)$`: the empty string matches exactly when the tail may be empty, and a string without a dot matches exactly when it is over `[0-9a-z_]` and is non-empty, unless the tail may be empty |
| StrictUri.StarThenTailEnds | src/net45/WampSharp/WAMP2/V2/Core/Uri/StrictUriValidator.cs:10-20 | A match cannot start with a dot when items must be non-empty, and cannot be empty or end with a dot when the tail must be non-empty |
| StrictUri.Pattern | src/net45/WampSharp/WAMP2/V2/Core/Uri/StrictUriValidator.cs:10-20 | The empty string matches every pattern except DisallowEmpty's. Only AllowEmpty matches a URI that starts with a dot, and DisallowEmpty never matches one that ends with a dot. |
| StrictUri.DotNetIsMatch | src/net45/WampSharp/WAMP2/V2/Core/Uri/StrictUriValidator.cs:10-20 | .NET's `IsMatch` accepts everything the pattern matches. It accepts nothing else except a matching string followed by one line feed. |
| StrictUri.Split | src/net45/WampSharp/WAMP2/V2/Core/Uri/StrictUriValidator.cs:10-20 | The component reading: at least one component, none containing a dot, and joining them with dots gives back the input |
| StrictUri.StarThenTailIsComponents | src/net45/WampSharp/WAMP2/V2/Core/Uri/StrictUriValidator.cs:10-20 | The regex shape `^(item)*(tail)$` matches exactly when the split components satisfy the matching emptiness conditions |
| StrictUri.StarThenTailAtFirstDot | src/net45/WampSharp/WAMP2/V2/Core/Uri/StrictUriValidator.cs:10-20 | On a string with a dot, the star's first item must end at the first dot: the pattern matches exactly when that item is allowed and the rest matches |
| StrictUri.PatternIsAccepts | src/net45/WampSharp/WAMP2/V2/Core/Uri/StrictUriValidator.cs:10-20 | Each pattern matches exactly the strings its component reading accepts |
| StrictUri.DisallowEmptyMeaning | src/net45/WampSharp/WAMP2/V2/Core/Uri/StrictUriValidator.cs:15 | DisallowEmpty matches exactly when every component is non-empty and drawn from `[0-9a-z_]` |
| StrictUri.AllowLastEmptyMeaning | src/net45/WampSharp/WAMP2/V2/Core/Uri/StrictUriValidator.cs:20 | AllowLastEmpty matches exactly when every component is drawn from `[0-9a-z_]` and only the last may be empty |
| StrictUri.AllowEmptyMeaning | src/net45/WampSharp/WAMP2/V2/Core/Uri/StrictUriValidator.cs:10 | AllowEmpty matches exactly when every component, empty or not, is drawn from `[0-9a-z_]` |
| StrictUri.AllowEmptyAlphabet | src/net45/WampSharp/WAMP2/V2/Core/Uri/StrictUriValidator.cs:10 | AllowEmpty matches exactly the strings over `[0-9a-z_.]` |
| StrictUri.Inclusion | src/net45/WampSharp/WAMP2/V2/Core/Uri/StrictUriValidator.cs:10-20 | DisallowEmpty ⊆ AllowLastEmpty ⊆ AllowEmpty |
| StrictUri.TrailingDot | src/net45/WampSharp/WAMP2/V2/Core/Uri/StrictUriValidator.cs:15-20 | "a." is accepted by AllowLastEmpty and rejected by DisallowEmpty |
| StrictUri.InnerEmptyComponent | src/net45/WampSharp/WAMP2/V2/Core/Uri/StrictUriValidator.cs:10-20 | "a..b" is accepted by AllowEmpty and rejected by AllowLastEmpty |
| StrictUri.EmptyString | src/net45/WampSharp/WAMP2/V2/Core/Uri/StrictUriValidator.cs:10-20 | The empty string is accepted by AllowEmpty and AllowLastEmpty and rejected by DisallowEmpty |
| StrictUri.LoneDot | src/net45/WampSharp/WAMP2/V2/Core/Uri/StrictUriValidator.cs:10-20 | "." is accepted by AllowEmpty and rejected by the other two grammars |
| StrictUri.OnlyUriCharacters | src/net45/WampSharp/WAMP2/V2/Core/Uri/StrictUriValidator.cs:10-20 | No pattern matches a string with a character outside `[0-9a-z_.]`, and in particular none with an upper-case letter |
| StrictUri.DotNetMatchWithoutNewline | src/net45/WampSharp/WAMP2/V2/Core/Uri/StrictUriValidator.cs:10-20 | On input without a line feed, .NET's `IsMatch` is exactly the pattern |
| StrictUri.DotNetMatchTrailingNewline | src/net45/WampSharp/WAMP2/V2/Core/Uri/StrictUriValidator.cs:10-20 | .NET's `IsMatch` also accepts every matching URI followed by one line feed, which the pattern itself rejects |
| StrictUri.DotNetAcceptsNewlineUri | src/net45/WampSharp/WAMP2/V2/Core/Uri/StrictUriValidator.cs:15 | "a\n" passes the DisallowEmpty check although it is not a URI |
| SyncOperation.SupportsCancellation | src/netstandard/WampSharp/WAMP2/V2/Rpc/Callee/SyncLocalRpcOperation.cs:17 | A synchronous operation never supports cancellation |
| SyncOperation.GetResultArgumentKeywords | src/netstandard/WampSharp/WAMP2/V2/Rpc/Callee/SyncLocalRpcOperation.cs:87-90 | The keyword results have exactly the out/ref names, each with its output value |
| SyncOperation.CallResult | src/netstandard/WampSharp/WAMP2/V2/Rpc/Callee/SyncLocalRpcOperation.cs:73-85 | When computing the positional results throws, no call is made and that exception ends the attempt. Otherwise exactly one result call, carrying the given yield options (a fresh default when none are given), the positional results and the outputs as keywords; what that call throws ends the attempt. |
| SyncOperation.HandleMethodOutput | src/netstandard/WampSharp/WAMP2/V2/Rpc/Callee/SyncLocalRpcOperation.cs:67-71 | When the positional results compute, exactly one result call, with default yield options, those results and the outputs as keywords. When they do not, no call. Nothing is thrown exactly when the results could be computed and delivered. No handle is returned. |
| SyncOperation.HandleWampException | src/netstandard/WampSharp/WAMP2/V2/Rpc/Callee/SyncLocalRpcOperation.cs:46-51 | A WAMP exception is reported unchanged as the error |
| SyncOperation.HandleOtherException | src/netstandard/WampSharp/WAMP2/V2/Rpc/Callee/SyncLocalRpcOperation.cs:53-58 | Any other exception is converted to a runtime exception before it is reported |
| SyncOperation.Catch | src/netstandard/WampSharp/WAMP2/V2/Rpc/Callee/SyncLocalRpcOperation.cs:34-41 | The two catch clauses: a WAMP exception is reported unchanged, any other through the converter |
| SyncOperation.InnerInvoke | src/netstandard/WampSharp/WAMP2/V2/Rpc/Callee/SyncLocalRpcOperation.cs:19-44 | One or two callbacks and never a handle. A result call is made exactly when `InvokeSync` returned and its results could be computed. The last callback is an error exactly when `InvokeSync`, computing the results or delivering them threw, and it reports that exception through the catch clause for its class. There are two callbacks exactly when the result was delivered and the delivery threw. |
| SyncOperation.ErrorOrigin | src/netstandard/WampSharp/WAMP2/V2/Rpc/Callee/SyncLocalRpcOperation.cs:34-41 | When the converter yields only runtime errors, a reported error with its own URI is exactly the WAMP exception the operation threw |
| SyncOperation.SyncInvocationIsNeverTracked | src/net45/WampSharp/WAMP2/V2/Client/Rpc/WampCallee.cs:204-213 | Whatever `InvokeSync` and the reporting do, the handle `InnerInvoke` returns makes the callee track nothing, so a later INTERRUPT cancels nothing |
| MethodInfoOperation.GetProcedure | src/net45/WampSharp/WAMP2/V2/Rpc/Callee/Reflection/MethodInfoRpcOperation.cs:61-72 | The procedure is the one the `[WampProcedure]` attribute names (the attribute must be present) |
| MethodInfoOperation.HasResult | src/net45/WampSharp/WAMP2/V2/Rpc/Callee/Reflection/MethodInfoRpcOperation.cs:25-32 | The operation has a result exactly when the method does not return `void` |
| MethodInfoOperation.ResultTreatment | src/net45/WampSharp/WAMP2/V2/Rpc/Callee/Reflection/MethodInfoRpcOperation.cs:34-45 | The `[WampResult]` attribute's treatment when present, `Multivalued` otherwise |
| MethodInfoOperation.Parameters | src/net45/WampSharp/WAMP2/V2/Rpc/Callee/Reflection/MethodInfoRpcOperation.cs:49-58 | One entry per non-`out` parameter; the `k`-th is the `k`-th non-`out` parameter with its fields copied and position `k` |
| MethodInfoOperation.Describe | src/net45/WampSharp/WAMP2/V2/Rpc/Callee/Reflection/MethodInfoRpcOperation.cs:19-59 | `HasResult` holds exactly when the return type is not `void`. The treatment is the attribute's value, or `Multivalued` without the attribute. There is one parameter per non-`out` parameter, in order. Each copies that parameter's name, type and default, and carries its position 0..k-1. |
| MethodInfoOperation.InParametersCount | src/net45/WampSharp/WAMP2/V2/Rpc/Callee/Reflection/MethodInfoRpcOperation.cs:49-51 | The filter keeps as many parameters as are not `out`, and none that is `out` |
| MethodInfoOperation.ParameterPlacement | src/net45/WampSharp/WAMP2/V2/Rpc/Callee/Reflection/MethodInfoRpcOperation.cs:49-58 | The non-`out` parameter declared at `j` appears at the position counting the non-`out` parameters before it, with name, type, default and hasDefault copied. So declaration order is kept and the indices have no gap. |
| MethodInfoOperation.ParameterOrigin | src/net45/WampSharp/WAMP2/V2/Rpc/Callee/Reflection/MethodInfoRpcOperation.cs:49-58 | Every entry of the parameter list comes from a non-`out` declared parameter placed that way |
| MethodInfoOperation.BuildParameters | src/net45/WampSharp/WAMP2/V2/Rpc/Callee/Reflection/MethodInfoRpcOperation.cs:49-58 | A single pass that numbers the non-`out` parameters as it meets them produces the constructor's parameter list |
| MethodInfoOperation.ConvertExceptionToRuntimeException | src/net45/WampSharp/WAMP2/V2/Rpc/Callee/Reflection/MethodInfoRpcOperation.cs:127-131 | The result is a runtime error carrying the exception's message |
| MethodInfoOperation.InvokeSync | src/net45/WampSharp/WAMP2/V2/Rpc/Callee/Reflection/MethodInfoRpcOperation.cs:89-125 | It returns if and only if the method returned, with the method's outputs. An exception no `catch` handles (from unpacking, an unwrapped reflection exception, or reading back the outputs) propagates unchanged. A WAMP inner exception is rethrown as it is; any other inner exception becomes a runtime error with the same message. |
| MethodInfoOperation.MethodInvocationReports | src/net45/WampSharp/WAMP2/V2/Rpc/Callee/Reflection/MethodInfoRpcOperation.cs:89-125 | End to end through `InnerInvoke`: a returning method whose results can be computed yields its result with its outputs as keywords. A WAMP exception the method throws reaches the caller unchanged, and any other as a runtime error with its message. An exception that no `catch` of `InvokeSync` handles is reported by the base class: unchanged when it is a WAMP exception, converted otherwise. |
| MethodInfoOperation.ThrowingMethodNeverYields | src/net45/WampSharp/WAMP2/V2/Rpc/Callee/Reflection/MethodInfoRpcOperation.cs:112-124 | A throwing method produces exactly one callback, never a result. An error with its own URI reaches the caller only when the method threw exactly that error. |

## Left out

- Concurrency: `ConcurrentDictionary` and `lock (mLock)`. Each public method is one atomic step, and interleavings are not modelled.
- Callee.Invocation, Callee.Interrupt: the pair is not atomic in the source. `Invocation` writes the map (WampCallee.cs:208) before it takes the lock to add to the reverse index (:210-213), and `Interrupt` removes from the map (:275) outside the lock. An INTERRUPT for the same id handled between lines 208 and 210 removes the map entry, finds nothing to remove from the index, and then the id is added to the index. The index is left listing an invocation the map no longer holds, which breaks `Callee.Valid`. The model promises `Valid` only for the sequential interleaving.
- Collaborator calls are assumed to return normally: `mProxy.Register` (:67), `mProxy.Unregister` (:115), an operation's `Invoke` (:204) and a handle's `Cancel` (:277). When one throws, the source's update is cut short. For Callee.Interrupt the consequence is this: a `Cancel` that throws leaves the invocation removed from the map (:275) but still listed in the reverse index, since line 281 never runs, so `Callee.Valid` no longer holds.
- `Task` objects: a task is a number that owns a `Pending | Completed | Faulted` state. Continuations and awaiting are not modelled.
- `WampRequestIdMapper` is not part of this model. The id it hands out is a parameter, and the callee relies on one property of it: the id is not pending (`requires`). Its draining on `ConnectionError`/`ConnectionClosed` (called at WampCallee.cs lines 308-309 and 316-317) is modelled after its documented behaviour: every pending request's task is faulted with the error and the request is forgotten (`Correlation.FailAll`).
- Invocation ids come from the router. `Callee.Invocation` keeps the invariant only for an id that is not already tracked (the `Valid` half of its contract). The source overwrites a reused id in the map. If the reused id arrives under a different registration, it also lists the id in a second set of the reverse index; under the same registration, adding it to the set changes nothing.
- `SwapDictionary`/`SwapCollection` are modelled as a map of sets. `IndexRemove` drops a registration whose set becomes empty. The invariant is stated through `Members`, so it holds whichever way that choice goes.
- Completing an invocation: in the source nothing removes an invocation from the map when its handler finishes; only INTERRUPT, UNREGISTERED and connection loss do. The model does the same.
- `ServerProxyCallback` and `InvocationData` are forwarding classes. The callback an operation receives is identified in the log by the invocation's request id. YIELD and ERROR messages to the proxy are not modelled.
- Serialization: formatters, `TMessage` and application values are opaque; `RegisterOptions` and `InterruptDetails` are opaque messages.
- `IWampClientConnectionMonitor`: whether the session is connected is a parameter. Subscribing to its events in the constructor is not modelled.
- `LocalRpcOperation` is not part of this model. Its `GetResultArguments` and `ConvertExceptionToRuntimeException` are parameters of `SyncOperation.InnerInvoke`; what its `Invoke` overloads return for one invocation is the `handle` parameter of `Callee.Invocation`.
- SyncOperation.HandleOtherException: states only that the reported error is the converter's result, because the base class's conversion is not part of this model.
- The error callback throwing: an exception from reporting an error inside a `catch` clause leaves `InnerInvoke`, and the model does not follow it.
- `GetResultArgumentKeywords` is virtual; only the base version, which returns the outputs and cannot throw, is modelled. An override that throws would be caught like any exception of the `try`.
- Logging in `HandleException(WampException)` has no observable effect on the model.
- Reflection (`MethodInfo.Invoke`, `GetCustomAttribute`, `HasDefaultValue`, `MethodInfoHelper`, `UnpackParameters`, `GetArguments`, `GetOutOrRefValues`) is replaced by `MethodSignature` and the `MethodOutcome` of one call.
- MethodInfoOperation.GetProcedure: a method without `[WampProcedure]` is a precondition violation. The source performs a null dereference there and throws `NullReferenceException`.
- The net45 `InvokeSync` override takes `TMessage options` where the netstandard base class takes `InvocationDetails`. The model ignores both, because neither affects the outcome.
- `WampRpcRuntimeException` is taken to be a `WampException`, so a converted exception is reported by the WAMP branch of `InnerInvoke`.
- `src/netstandard/Samples/WAMP2/WampSharp.Samples.Publisher/Program.cs` is a command-line bootstrap with no logic.
- The .NET regular-expression engine is not modelled in general. Only the one behaviour that matters here is: `$` also matches before a final line feed (`StrictUri.DotNetIsMatch`).

## Findings

| source | as written | input that shows it | evidently intended | confidence | as-written member | corrected member |
|---|---|---|---|---|---|---|
| src/net45/WampSharp/WAMP2/V2/Core/Uri/StrictUriValidator.cs:15 | The patterns end in `$` and are built with `RegexOptions.Compiled` only (no `Multiline`), so .NET's `IsMatch` also succeeds when the URI is followed by one line feed | "a\n" against the DisallowEmpty pattern | A strict URI check accepts only components over `[0-9a-z_]` and dots (`\z`, not `$`) | not executed; medium (the .NET anchor semantics are documented) | StrictUri.DotNetAcceptsNewlineUri | StrictUri.OnlyUriCharacters |
