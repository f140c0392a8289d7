/**
 The correlation table behind `WampRequestIdMapper<T>` together with the tasks of
 its pending requests (`WampPendingRequest`). A request id names a pending entry
 while an acknowledgment is awaited; the entry carries the payload the callee
 needs on acknowledgment and the number of the task the application awaits.

 Tasks are numbered from a counter, one per allocated request: the number is the
 identity of the `Task` object. A task is `Pending` until exactly one of
 acknowledgment, error or connection loss resolves it; a resolved task never
 changes again.
 */
module Correlation {
  import opened Wrappers
  import opened Values

  /** The optional payload of an ERROR message: the three arities of `RegisterError`/`UnregisterError`. */
  datatype ErrorPayload =
    | Bare
    | WithArguments(arguments: seq<Message>)
    | WithKeywords(arguments: seq<Message>, argumentsKeywords: Message)

  /** Why a pending register or unregister request failed. */
  datatype RequestError =
    | ProtocolError(details: Message, error: string, payload: ErrorPayload)
    | ConnectionError(exception: string)
    | ConnectionClosed(closeInfo: Message)

  /** The state of the task returned to the application. */
  datatype TaskState<+V> = Pending | Completed(value: V) | Faulted(error: RequestError)

  /** One pending request: its payload and the number of its task. */
  datatype Entry<+T> = Entry(payload: T, task: nat)

  datatype Table<+T, +V> = Table(pending: map<int, Entry<T>>, tasks: map<nat, TaskState<V>>, nextTask: nat)

  function Empty<T, V>(): (t: Table<T, V>)
    ensures Valid(t) && t.pending == map[] && t.tasks == map[]
  {
    Table(map[], map[], 0)
  }

  /** The numbers of the tasks of pending entries. */
  function PendingTasks<T, V>(t: Table<T, V>): set<nat> {
    set id | id in t.pending :: t.pending[id].task
  }

  /**
   The table is consistent: tasks are numbered below the counter, each pending
   entry owns a distinct task that is still `Pending`, and every `Pending` task
   belongs to a pending entry (no task is left unreachable).
   */
  ghost predicate Valid<T, V>(t: Table<T, V>) {
    && (forall k :: k in t.tasks ==> k < t.nextTask)
    && (forall id :: id in t.pending ==> t.pending[id].task in t.tasks && t.tasks[t.pending[id].task].Pending?)
    && (forall id1, id2 :: id1 in t.pending && id2 in t.pending && id1 != id2
                           ==> t.pending[id1].task != t.pending[id2].task)
    && (forall k :: k in t.tasks && t.tasks[k].Pending? ==> k in PendingTasks(t))
  }

  /** From `t` to `u` no task disappeared and no resolved task changed. */
  ghost predicate Settled<T, V>(t: Table<T, V>, u: Table<T, V>) {
    && t.nextTask <= u.nextTask
    && (forall k :: k in t.tasks ==> k in u.tasks && (!t.tasks[k].Pending? ==> u.tasks[k] == t.tasks[k]))
  }

  /**
   `Add`: stores a new pending entry under `id`, which the id mapper guarantees is
   not pending, and creates its task. Returns the table and the task number.
   */
  function Add<T, V>(t: Table<T, V>, id: int, payload: T): (r: (Table<T, V>, nat))
    requires id !in t.pending
    ensures r.0.pending == t.pending[id := Entry(payload, r.1)]
    ensures r.0.tasks == t.tasks[r.1 := Pending]
    ensures Valid(t) ==> r.1 !in t.tasks && Valid(r.0) && Settled(t, r.0)
  {
    var k := t.nextTask;
    var u := Table(t.pending[id := Entry(payload, k)], t.tasks[k := Pending], k + 1);
    assert PendingTasks(u) == PendingTasks(t) + {k} by {
      forall x | x in PendingTasks(u) ensures x in PendingTasks(t) + {k} {
        var id' :| id' in u.pending && u.pending[id'].task == x;
        if id' != id {
          assert t.pending[id'].task == x;
        }
      }
      forall x | x in PendingTasks(t) ensures x in PendingTasks(u) {
        var id' :| id' in t.pending && t.pending[id'].task == x;
        assert u.pending[id'].task == x;
      }
      assert u.pending[id].task == k;
    }
    (u, k)
  }

  /**
   `TryRemove` followed by `Complete(value)`: when `id` is pending, removes it,
   completes its task and hands back its payload; otherwise nothing happens.
   */
  function Complete<T, V>(t: Table<T, V>, id: int, value: V): (r: (Table<T, V>, Option<T>))
    ensures id in t.pending ==>
      && r.1 == Some(t.pending[id].payload)
      && r.0.pending == t.pending - {id}
      && r.0.tasks == t.tasks[t.pending[id].task := Completed(value)]
      && r.0.nextTask == t.nextTask
    ensures id !in t.pending ==> r == (t, None)
    ensures Valid(t) ==> Valid(r.0) && Settled(t, r.0)
  {
    if id in t.pending then
      var e := t.pending[id];
      var u := Table(t.pending - {id}, t.tasks[e.task := Completed(value)], t.nextTask);
      assert Valid(t) ==> PendingTasks(u) == PendingTasks(t) - {e.task} by {
        if Valid(t) {
          forall k | k in PendingTasks(t) - {e.task} ensures k in PendingTasks(u) {
            var id' :| id' in t.pending && t.pending[id'].task == k;
            assert id' in u.pending && u.pending[id'].task == k;
          }
          forall k | k in PendingTasks(u) ensures k in PendingTasks(t) - {e.task} {
            var id' :| id' in u.pending && u.pending[id'].task == k;
            assert t.pending[id'].task == k;
          }
        }
      }
      (u, Some(e.payload))
    else
      (t, None)
  }

  /**
   `TryRemove` followed by `Error(...)`: when `id` is pending, removes it and
   faults its task with `error`; otherwise nothing happens.
   */
  function Fail<T, V>(t: Table<T, V>, id: int, error: RequestError): (r: Table<T, V>)
    ensures id in t.pending ==>
      && r.pending == t.pending - {id}
      && r.tasks == t.tasks[t.pending[id].task := Faulted(error)]
      && r.nextTask == t.nextTask
    ensures id !in t.pending ==> r == t
    ensures Valid(t) ==> Valid(r) && Settled(t, r)
  {
    if id in t.pending then
      var e := t.pending[id];
      var u := Table(t.pending - {id}, t.tasks[e.task := Faulted(error)], t.nextTask);
      assert Valid(t) ==> PendingTasks(u) == PendingTasks(t) - {e.task} by {
        if Valid(t) {
          forall k | k in PendingTasks(t) - {e.task} ensures k in PendingTasks(u) {
            var id' :| id' in t.pending && t.pending[id'].task == k;
            assert id' in u.pending && u.pending[id'].task == k;
          }
          forall k | k in PendingTasks(u) ensures k in PendingTasks(t) - {e.task} {
            var id' :| id' in u.pending && u.pending[id'].task == k;
            assert t.pending[id'].task == k;
          }
        }
      }
      u
    else
      t
  }

  /**
   `ConnectionError`/`ConnectionClosed`: drains the table, faulting the task of
   every pending entry with `error`. Tasks already resolved keep their outcome.
   */
  function FailAll<T, V>(t: Table<T, V>, error: RequestError): (r: Table<T, V>)
    ensures r.pending == map[]
    ensures r.tasks.Keys == t.tasks.Keys
    ensures forall id :: id in t.pending && t.pending[id].task in t.tasks
                         ==> r.tasks[t.pending[id].task] == Faulted(error)
    ensures forall k :: k in t.tasks && k !in PendingTasks(t) ==> r.tasks[k] == t.tasks[k]
    ensures Valid(t) ==> Valid(r) && Settled(t, r)
    ensures Valid(t) ==> forall k :: k in r.tasks ==> !r.tasks[k].Pending?
    ensures t.pending == map[] ==> r == t
  {
    var pendingTasks := PendingTasks(t);
    Table(map[], map k | k in t.tasks :: if k in pendingTasks then Faulted(error) else t.tasks[k], t.nextTask)
  }
}
