/** `useWebWorkerFn` of src/hooks/useWebWorkerFn.ts: the `importScripts`
    line built from the dependency list, and the life cycle of the one
    worker the hook keeps. Worker creation, `postMessage`, blob URLs and
    the function text sent to the worker are outside the model: a worker is
    a fresh number, a call a fresh number, and what the worker posts back
    arrives as an event. */
module WebWorker {
  import opened Wrappers
  import Strings

  /** `'dep'`. */
  function Quote(dep: string): (q: string)
    ensures |q| == |dep| + 2 && q[0] == '\'' && q[|q| - 1] == '\'' && q[1..|q| - 1] == dep
  {
    "'" + dep + "'"
  }

  function Quoted(deps: seq<string>): (qs: seq<string>)
    ensures |qs| == |deps| && forall i :: 0 <= i < |deps| ==> qs[i] == Quote(deps[i])
  {
    seq(|deps|, i requires 0 <= i < |deps| => Quote(deps[i]))
  }

  const ImportScripts: string := "importScripts("

  /** `depsParser(deps)`: nothing for no dependencies, otherwise one
      `importScripts` call with every dependency quoted, in order, separated
      by commas (`Array.prototype.toString`). */
  function DepsParser(deps: seq<string>): (r: string)
    ensures |deps| == 0 <==> r == ""
    ensures |deps| > 0 ==> |r| > |ImportScripts| && r[..|ImportScripts|] == ImportScripts && r[|r| - 1] == ')'
  {
    if |deps| == 0 then ""
    else ImportScripts + Strings.Join(Quoted(deps), ',') + ")"
  }

  /** Reads the dependency list back out of an `importScripts` line: the
      text between the parentheses, split at commas, with the quotes
      stripped. */
  function DepsOf(line: string): seq<string> {
    if |line| <= |ImportScripts| || line[..|ImportScripts|] != ImportScripts || line[|line| - 1] != ')' then []
    else
      var parts := Strings.Split(line[|ImportScripts|..|line| - 1], ',');
      seq(|parts|, i requires 0 <= i < |parts| => if |parts[i]| >= 2 then parts[i][1..|parts[i]| - 1] else parts[i])
  }

  /** The line names exactly the dependencies it was built from, in order,
      when none of them contains a comma. */
  lemma DepsRoundTrip(deps: seq<string>)
    requires forall i :: 0 <= i < |deps| ==> ',' !in deps[i]
    ensures DepsOf(DepsParser(deps)) == deps
  {
    if |deps| > 0 {
      var qs := Quoted(deps);
      var line := DepsParser(deps);
      var inner := Strings.Join(qs, ',');
      assert line == ImportScripts + inner + ")";
      assert line[|ImportScripts|..|line| - 1] == inner;
      forall i | 0 <= i < |qs| ensures ',' !in qs[i] {
        assert qs[i] == "'" + deps[i] + "'";
      }
      Strings.SplitJoin(qs, ',');
    }
  }

  datatype Status = Pending | Running | Success | Error

  /** The hook's variables: `workerStatus`, the current `worker` (a number
      standing for the object), the call whose `resolve`/`reject` the
      `promise` holds, and the next fresh worker and call numbers. */
  datatype Hook = Hook(status: Status, worker: Option<nat>, promise: Option<nat>, nextWorker: nat, nextCall: nat)

  const Initial := Hook(Pending, None, None, 0, 0)

  /** A worker exists only while a call runs on it (or after an explicit
      `workerTerminate('RUNNING')`, which leaves none), a pending call has
      its worker, and the numbers handed out are below the counters. */
  predicate Valid(h: Hook) {
    && (h.worker.Some? ==> h.status == Running && h.worker.value < h.nextWorker)
    && (h.promise.Some? ==> h.worker.Some? && h.promise.value < h.nextCall)
  }

  /** What a rejected call is rejected with: the result the worker posted
      alongside a status other than 'SUCCESS', or the `ErrorEvent` of a
      worker error (here its message). */
  datatype Reason = WorkerResult(value: string) | ErrorEvent(message: string)

  /** How a call of `workerFn` ends up, or how a pending call settles. */
  datatype Settled = Resolved(call: nat, value: string) | Rejected(call: nat, reason: Reason) | NoCall

  /** The result of `workerFn(...)`: a rejected promise while a call runs,
      otherwise the number of the call started. */
  datatype Started = Busy | Call(call: nat)

  /** `workerTerminate(status)`: the worker is terminated and dropped, the
      pending promise forgotten, and the status set. With no worker,
      `worker.terminate()` throws. */
  function Terminate(h: Hook, status: Status): (r: Result<Hook>)
    ensures r.Thrown? <==> h.worker.None?
    ensures r.Ok? ==> r.value.status == status && r.value.worker.None? && r.value.promise.None?
    ensures r.Ok? ==> r.value.nextWorker == h.nextWorker && r.value.nextCall == h.nextCall
    ensures r.Ok? ==> Valid(r.value)
  {
    if h.worker.None? then Thrown("TypeError")
    else Ok(Hook(status, None, None, h.nextWorker, h.nextCall))
  }

  /** `workerFn(...args)`: refused while the status is RUNNING; otherwise a
      new worker is generated and `callWorker` stores the promise and sets
      the status to RUNNING. */
  function WorkerFn(h: Hook): (r: (Hook, Started))
    requires Valid(h)
    ensures Valid(r.0)
    ensures h.status == Running <==> r.1 == Busy
    ensures h.status == Running ==> r.0 == h
    ensures h.status != Running ==>
      && r.0.status == Running && r.1 == Call(h.nextCall) && r.0.promise == Some(h.nextCall)
      && r.0.worker == Some(h.nextWorker) && r.0.nextWorker == h.nextWorker + 1 && r.0.nextCall == h.nextCall + 1
  {
    if h.status == Running then (h, Busy)
    else (Hook(Running, Some(h.nextWorker), Some(h.nextCall), h.nextWorker + 1, h.nextCall + 1), Call(h.nextCall))
  }

  /** The worker's `onmessage` with `[status, result]`: 'SUCCESS' resolves
      the pending call with `result` and terminates with SUCCESS; anything
      else rejects it with `result` and terminates with ERROR. A promise that is no longer held
      settles nothing. */
  function OnMessage(h: Hook, status: Status, result: string): (r: (Result<Hook>, Settled))
    requires Valid(h)
    ensures r.0.Thrown? <==> h.worker.None?
    ensures r.0.Ok? ==> Valid(r.0.value) && r.0.value.status == (if status == Success then Success else Error)
    ensures h.promise.None? ==> r.1 == NoCall
    ensures h.promise.Some? ==> r.1 == if status == Success then Resolved(h.promise.value, result) else Rejected(h.promise.value, WorkerResult(result))
  {
    var settled := match h.promise
      case None => NoCall
      case Some(c) => if status == Success then Resolved(c, result) else Rejected(c, WorkerResult(result));
    (Terminate(h, if status == Success then Success else Error), settled)
  }

  /** The worker's `onerror` with an error event: the pending call is
      rejected with the event itself and the worker terminated with ERROR. */
  function OnError(h: Hook, event: string): (r: (Result<Hook>, Settled))
    requires Valid(h)
    ensures r.0.Thrown? <==> h.worker.None?
    ensures r.0.Ok? ==> Valid(r.0.value) && r.0.value.status == Error
    ensures r.1 == if h.promise.Some? then Rejected(h.promise.value, ErrorEvent(event)) else NoCall
  {
    (Terminate(h, Error), if h.promise.Some? then Rejected(h.promise.value, ErrorEvent(event)) else NoCall)
  }

  /** At most one call runs at a time: starting a call while one is pending
      changes nothing, so the pending call keeps its promise. */
  lemma OneCallAtATime(h: Hook)
    requires Valid(h) && h.promise.Some?
    ensures WorkerFn(h) == (h, Busy)
  {
  }

  /** A successful run: the call started is the one resolved, the status
      ends SUCCESS, and the next call may start. */
  lemma SuccessfulRun(h: Hook, result: string)
    requires Valid(h) && h.status != Running
    ensures var (h1, started) := WorkerFn(h);
      var (h2, settled) := OnMessage(h1, Success, result);
      && started.Call? && settled == Resolved(started.call, result)
      && h2.Ok? && h2.value.status == Success && WorkerFn(h2.value).1.Call?
  {
  }

  /** A failed run: a worker error rejects exactly the call started, with
      the error event, the status ends ERROR, and the next call may start. */
  lemma FailedRun(h: Hook, event: string)
    requires Valid(h) && h.status != Running
    ensures var (h1, started) := WorkerFn(h);
      var (h2, settled) := OnError(h1, event);
      && started.Call? && settled == Rejected(started.call, ErrorEvent(event))
      && h2.Ok? && h2.value.status == Error && WorkerFn(h2.value).1.Call?
  {
  }

  /** Every call number is handed out once: calls started one after the
      other get increasing numbers. */
  lemma CallsAreFresh(h: Hook, result: string)
    requires Valid(h) && h.status != Running
    ensures var (h1, s1) := WorkerFn(h);
      var h2 := OnMessage(h1, Error, result).0.value;
      var (_, s2) := WorkerFn(h2);
      s1.Call? && s2.Call? && s1.call < s2.call
  {
  }

  /** Terminating twice throws the second time: the first drops the
      worker. */
  lemma TerminateTwiceThrows(h: Hook, s1: Status, s2: Status)
    requires Terminate(h, s1).Ok?
    ensures Terminate(Terminate(h, s1).value, s2).Thrown?
  {
  }
}
