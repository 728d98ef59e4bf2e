/** The host side of the script protocol (python_runtime/src/executor.rs): a script call
    takes a worker from the pool, writes one JSON-RPC request line to it, reads one
    response line, and then releases the worker, restarts it, or leaves it checked out,
    depending on how the exchange went. The pipes are replaced by the outcome of the
    exchange (`Exchange`); the pool is the `Manager` model. */
module ScriptExecutor {
  import opened Wrappers
  import opened JsonValues
  import Manager
  import ScriptRuntime

  datatype PythonError =
    | ProcessStartError(message: string)
    | Timeout(seconds: nat)
    | JsonError
    | ExecutionError(message: string)
    | MemoryLimitExceeded
    | ManagerError(error: Manager.ManagerError)
    | IoError

  /** The message of a poisoned lock. */
  const POISONED: string := "锁中毒"

  /** The message of a response with neither a result nor an error. */
  const NO_RESULT: string := "Python 执行无结果"

  /** `as u64` of the nanosecond clock: the low 64 bits. */
  const U64: nat := 0x1_0000_0000_0000_0000

  /** The request of a call: version "2.0", method "execute_python", the code and the
      inputs as parameters, and the id. */
  function Request(code: string, inputs: map<string, Json>, id: nat): (j: Json)
    ensures j.JObject? && j.fields.Keys == {"jsonrpc", "method", "params", "id"}
    ensures j.fields["method"] == JString("execute_python") && j.fields["id"] == JInt(id)
  {
    JObject(map[
      "jsonrpc" := JString("2.0"),
      "method" := JString("execute_python"),
      "params" := JObject(map["code" := JString(code), "inputs" := JObject(inputs)]),
      "id" := JInt(id)])
  }

  /** A response line as read into the response struct: its result and the message of
      its error, each absent when missing or null. */
  datatype Response = Response(result: Option<Json>, error: Option<string>)

  /** How the exchange with the worker went: writing or flushing the request failed;
      reading the response line failed; or a line was read, and it parsed as a response
      (Some) or not (None; this includes the empty line read at end of input). */
  datatype Exchange =
    | WriteFails
    | ReadFails
    | Reply(response: Option<Response>)

  /** What happens to the worker afterwards. */
  datatype Effect = Release | Restart | Leak

  /** The result of a call and the effect on its worker, given how the exchange went:
      an error response releases the worker and fails with its message; a result releases
      it and returns the outputs if the result is an object; a response with neither
      releases it and fails with NO_RESULT; a failed read restarts the worker; every other
      failure returns early and leaves the worker checked out. */
  function Outcome(x: Exchange): (o: (Result<map<string, Json>, PythonError>, Effect))
    ensures o.1 == Restart <==> x == ReadFails
    ensures o.1 == Release <==>
      x.Reply? && x.response.Some?
      && (x.response.value.error.Some? || x.response.value.result.None? || x.response.value.result.value.JObject?)
    ensures o.0.Ok? <==>
      x.Reply? && x.response.Some? && x.response.value.error.None?
      && x.response.value.result.Some? && x.response.value.result.value.JObject?
    ensures o.0.Ok? ==> o.0.value == x.response.value.result.value.fields
    ensures o.1 == Leak ==> o.0 == Err(IoError) || o.0 == Err(JsonError)
    ensures o.1 == Restart ==> o.0 == Err(IoError)
    ensures x.Reply? && x.response.Some? && x.response.value.error.Some? ==>
      o.0 == Err(ExecutionError(x.response.value.error.value))
  {
    match x
    case WriteFails => (Err(IoError), Leak)
    case ReadFails => (Err(IoError), Restart)
    case Reply(None) => (Err(JsonError), Leak)
    case Reply(Some(response)) =>
      if response.error.Some? then (Err(ExecutionError(response.error.value)), Release)
      else if response.result.Some? then
        if response.result.value.JObject? then (Ok(response.result.value.fields), Release)
        else (Err(JsonError), Leak)
      else (Err(ExecutionError(NO_RESULT)), Release)
  }

  /** Reading a response line's JSON into the response struct: an object whose `error`,
      when present and not null, is an object with a string `message`. */
  function ReadResponse(j: Json): (r: Option<Response>)
    ensures r.Some? ==> j.JObject?
    ensures r.Some? && r.value.result.Some? ==> Get(j, "result") == r.value.result && r.value.result != Some(JNull)
    ensures r.Some? && r.value.error.Some? ==>
      Get(j, "error").Some? && Get(j.fields["error"], "message") == Some(JString(r.value.error.value))
  {
    if !j.JObject? then None
    else
      var result := if "result" in j.fields && j.fields["result"] != JNull then Some(j.fields["result"]) else None;
      if "error" !in j.fields || j.fields["error"] == JNull then Some(Response(result, None))
      else
        var e := j.fields["error"];
        if e.JObject? && "message" in e.fields && e.fields["message"].JString? then
          Some(Response(result, Some(e.fields["message"].s)))
        else None
  }

  /** The worker's answers, read back by the host: a result with the outputs succeeds
      and releases the worker, an error answer fails with the worker's message and
      releases it. */
  lemma AnswersReadBack(outputs: map<string, Json>, id: Json, code: int, message: string, data: Option<string>)
    ensures Outcome(Reply(ReadResponse(ScriptRuntime.Success(outputs, id)))) == (Ok(outputs), Release)
    ensures Outcome(Reply(ReadResponse(ScriptRuntime.Failure(code, message, data, id))))
         == (Err(ExecutionError(message)), Release)
  {
    ScriptRuntime.ResponsesWellFormed(outputs, id, code, message, data);
  }

  /** The request a call writes is one the worker runs: its code is the code, its inputs
      are the inputs, and it carries an id. */
  lemma RequestIsRun(code: string, inputs: map<string, Json>, id: nat)
    ensures ScriptRuntime.Call(Request(code, inputs, id).fields) == Some((JString(code), JObject(inputs)))
    ensures "id" in Request(code, inputs, id).fields
  {
    var params := Request(code, inputs, id).fields["params"];
    assert Get(params, "inputs") == Some(JObject(inputs));
  }

  /** The `ExecutionResult` of a call with path inputs. */
  datatype ExecutionResult = ExecutionResult(outputs: map<string, Json>, success: bool, error: Option<string>)

  /** The inputs of `execute_with_paths`: every path as a JSON string. */
  function PathInputs(paths: map<string, string>): (inputs: map<string, Json>)
    ensures inputs.Keys == paths.Keys
    ensures forall k | k in inputs :: inputs[k] == JString(paths[k])
  {
    map k | k in paths :: JString(paths[k])
  }

  class PythonExecutor {
    const manager: Manager.PythonManager

    ghost predicate Valid()
      reads this, manager
    {
      manager.Valid()
    }

    /** `new`: an executor over a new, empty pool. */
    constructor(maxPoolSize: nat, timeout: nat, pythonPath: string)
      ensures Valid() && fresh(manager)
      ensures manager.pool == [] && manager.nextProcessId == 0 && manager.maxPoolSize == maxPoolSize
    {
      manager := new Manager.PythonManager(maxPoolSize, timeout, pythonPath);
    }

    /** `start`: fills the pool as the pool's `start` does; a poisoned lock fails without
        touching it. */
    method Start(host: Manager.Host, poisoned: bool) returns (r: Result<(), PythonError>)
      requires Valid()
      modifies manager
      ensures Valid()
      ensures poisoned ==> r == Err(ExecutionError(POISONED)) && manager.pool == old(manager.pool)
                           && manager.nextProcessId == old(manager.nextProcessId)
      ensures !poisoned ==>
        var n := manager.nextProcessId - old(manager.nextProcessId);
        && old(manager.nextProcessId) <= manager.nextProcessId
        && manager.pool == old(manager.pool) + Manager.Fresh(old(manager.nextProcessId), n, host.now)
        && (r.Ok? <==> n == manager.maxPoolSize / 2)
        && (r.Err? && |old(manager.pool)| + n >= manager.maxPoolSize ==> r.error == ManagerError(Manager.PoolFull))
        && (r.Err? && |old(manager.pool)| + n < manager.maxPoolSize ==>
              host.Attempt(n).Some? && r.error == ManagerError(Manager.ProcessStartError(host.Attempt(n).value)))
    {
      if poisoned {
        return Err(ExecutionError(POISONED));
      }
      var started := manager.Start(host);
      if started.Err? {
        return Err(ManagerError(started.error));
      }
      r := Ok(());
    }

    /** `stop`: empties the pool, unless the lock is poisoned. */
    method Stop(poisoned: bool)
      requires Valid()
      modifies manager
      ensures Valid()
      ensures manager.pool == if poisoned then old(manager.pool) else []
    {
      if !poisoned {
        manager.Stop();
      }
    }

    /** `execute`. The id of the request is the clock's nanoseconds cut to 64 bits. With
        the lock poisoned the call fails at once. Otherwise a worker is acquired as
        `get_process` does; when none can be had the pool's error is returned. When one
        is (`worker`), the request is written to it (`sent`), the result is the `Outcome`
        of the exchange, and the worker is released (available again, last used now),
        restarted (taken out, and a fresh worker appended when its spawn, the call's
        second attempt, succeeds) or left checked out; no other worker changes. */
    method Execute(code: string, inputs: map<string, Json>, clock: nat, host: Manager.Host,
                   poisoned: bool, exchange: Exchange)
      returns (r: Result<map<string, Json>, PythonError>, worker: Option<nat>, sent: Option<Json>)
      requires Valid()
      modifies manager
      ensures Valid()
      ensures poisoned ==>
        && r == Err(ExecutionError(POISONED)) && worker.None? && sent.None?
        && manager.pool == old(manager.pool) && manager.nextProcessId == old(manager.nextProcessId)
      ensures !poisoned ==>
        var a := Manager.Acquire(old(manager.pool), old(manager.nextProcessId), manager.maxPoolSize, host);
        && (worker.None? <==> a.0.Err?)
        && (a.0.Err? ==> && r == Err(ManagerError(a.0.error)) && sent.None?
                         && manager.pool == a.1 && manager.nextProcessId == a.2)
        && (a.0.Ok? ==> && worker == Some(a.0.value) && sent == Some(Request(code, inputs, clock % U64))
                        && r == Outcome(exchange).0)
        && (a.0.Ok? && Outcome(exchange).1 == Leak ==> manager.pool == a.1 && manager.nextProcessId == a.2)
        && (a.0.Ok? && Outcome(exchange).1 == Release ==>
              && manager.nextProcessId == a.2 && |manager.pool| == |a.1|
              && forall i | 0 <= i < |a.1| ::
                   manager.pool[i] == if a.1[i].id == a.0.value then a.1[i].(available := true, lastUsed := host.now)
                                      else a.1[i])
        && (a.0.Ok? && Outcome(exchange).1 == Restart ==>
              var respawn := host.Attempt(1);
              && manager.pool == Manager.Select(a.1, {a.0.value}, false)
                                 + (if respawn.None? then [Manager.Worker(a.2, host.now, true)] else [])
              && manager.nextProcessId == a.2 + (if respawn.None? then 1 else 0))
    {
      var request := Request(code, inputs, clock % U64);
      if poisoned {
        return Err(ExecutionError(POISONED)), None, None;
      }
      var got := manager.GetProcess(host);
      if got.Err? {
        return Err(ManagerError(got.error)), None, None;
      }
      var id := got.value;
      worker, sent := Some(id), Some(request);
      var outcome := Outcome(exchange);
      r := outcome.0;
      ghost var i :| 0 <= i < |manager.pool| && manager.pool[i] == Manager.Worker(id, host.now, false);
      assert id in Manager.Ids(manager.pool);
      Settle(id, outcome.1, host);
    }

    /** What becomes of worker `id`, handed out for the call, after the exchange: released
        (available again, last used now, no other worker touched), restarted (taken out,
        and a fresh worker appended when the call's second spawn attempt succeeds), or
        left checked out. */
    method Settle(id: nat, effect: Effect, host: Manager.Host)
      requires Valid() && id in Manager.Ids(manager.pool)
      modifies manager
      ensures Valid()
      ensures effect == Leak ==>
        manager.pool == old(manager.pool) && manager.nextProcessId == old(manager.nextProcessId)
      ensures effect == Release ==>
        && manager.nextProcessId == old(manager.nextProcessId) && |manager.pool| == |old(manager.pool)|
        && forall i | 0 <= i < |old(manager.pool)| ::
             manager.pool[i] == if old(manager.pool)[i].id == id
                                then old(manager.pool)[i].(available := true, lastUsed := host.now)
                                else old(manager.pool)[i]
      ensures effect == Restart ==>
        var respawn := host.Attempt(1);
        && manager.pool == Manager.Select(old(manager.pool), {id}, false)
                           + (if respawn.None? then [Manager.Worker(old(manager.nextProcessId), host.now, true)] else [])
        && manager.nextProcessId == old(manager.nextProcessId) + (if respawn.None? then 1 else 0)
    {
      match effect
      case Release =>
        manager.ReleaseProcess(id, host.now);
      case Restart =>
        var _ := manager.RestartProcess(id, host.Shift(1));
        assert host.Shift(1).spawn == host.Attempt(1 + 0);
      case Leak =>
    }

    /** `execute_with_paths`: the paths are passed as strings, and the outputs of a call
        that succeeds are wrapped as a successful execution result. */
    method ExecuteWithPaths(code: string, paths: map<string, string>, clock: nat, host: Manager.Host,
                            poisoned: bool, exchange: Exchange)
      returns (r: Result<ExecutionResult, PythonError>, worker: Option<nat>, sent: Option<Json>)
      requires Valid()
      modifies manager
      ensures Valid()
      ensures worker.Some? ==> sent == Some(Request(code, PathInputs(paths), clock % U64))
      ensures worker.Some? && Outcome(exchange).0.Ok? ==>
        r == Ok(ExecutionResult(Outcome(exchange).0.value, true, None))
      ensures worker.Some? && Outcome(exchange).0.Err? ==> r == Err(Outcome(exchange).0.error)
      ensures worker.None? ==> r.Err?
      ensures r.Ok? ==> r.value.success && r.value.error.None?
      ensures poisoned ==>
        && r == Err(ExecutionError(POISONED)) && worker.None? && sent.None?
        && manager.pool == old(manager.pool) && manager.nextProcessId == old(manager.nextProcessId)
      ensures !poisoned ==>
        var a := Manager.Acquire(old(manager.pool), old(manager.nextProcessId), manager.maxPoolSize, host);
        && (worker.None? <==> a.0.Err?)
        && (a.0.Err? ==> && r == Err(ManagerError(a.0.error)) && sent.None?
                         && manager.pool == a.1 && manager.nextProcessId == a.2)
        && (a.0.Ok? ==> worker == Some(a.0.value))
        && (a.0.Ok? && Outcome(exchange).1 == Leak ==> manager.pool == a.1 && manager.nextProcessId == a.2)
        && (a.0.Ok? && Outcome(exchange).1 == Release ==>
              && manager.nextProcessId == a.2 && |manager.pool| == |a.1|
              && forall i | 0 <= i < |a.1| ::
                   manager.pool[i] == if a.1[i].id == a.0.value then a.1[i].(available := true, lastUsed := host.now)
                                      else a.1[i])
        && (a.0.Ok? && Outcome(exchange).1 == Restart ==>
              var respawn := host.Attempt(1);
              && manager.pool == Manager.Select(a.1, {a.0.value}, false)
                                 + (if respawn.None? then [Manager.Worker(a.2, host.now, true)] else [])
              && manager.nextProcessId == a.2 + (if respawn.None? then 1 else 0))
    {
      var outputs;
      outputs, worker, sent := Execute(code, PathInputs(paths), clock, host, poisoned, exchange);
      if outputs.Err? {
        return Err(outputs.error), worker, sent;
      }
      r := Ok(ExecutionResult(outputs.value, true, None));
    }
  }

  /** One call carried through to a worker runtime: the request the executor writes is
      run by the worker, and when the run raises nothing the worker's answer, read back,
      makes the call succeed with the worker's `output_...` globals and releases the
      worker. `line` is the request line as the worker reads it. */
  method RoundTrip(runtime: ScriptRuntime.MicroFlowRuntime, code: string, inputs: map<string, Json>,
                   id: nat, line: string, py: ScriptRuntime.Interpreter)
    returns (answer: Json)
    requires py.loads(line) == Ok(Request(code, inputs, id))
    requires py.exec(JString(code), runtime.globals + inputs).raised.None?
    modifies runtime
    ensures runtime.globals == py.exec(JString(code), old(runtime.globals) + inputs).globals
    ensures answer == ScriptRuntime.Success(ScriptRuntime.OutputsOf(runtime.globals), JInt(id))
    ensures Outcome(Reply(ReadResponse(answer))) == (Ok(ScriptRuntime.OutputsOf(runtime.globals)), Release)
  {
    RequestIsRun(code, inputs, id);
    var r := runtime.HandleRequest(line, py);
    answer := r.value;
    AnswersReadBack(ScriptRuntime.OutputsOf(runtime.globals), JInt(id), 0, "", None);
  }
}
