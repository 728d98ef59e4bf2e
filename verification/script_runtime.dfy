/** The worker side of the script protocol (python_runtime/python/microflow_runtime.py): a
    runtime that keeps one globals dictionary across requests, answers each JSON-RPC request
    line with one response line, and runs `execute_python` requests by merging the inputs
    into the globals, running the code and returning the globals named `output_...`.
    Running code, parsing JSON and the text of interpreter exceptions are the interpreter's
    business; they are the fields of an `Interpreter` parameter. Values are JSON values. */
module ScriptRuntime {
  import opened Wrappers
  import opened JsonValues

  type Globals = map<string, Json>

  /** What `exec(code, globals)` did: the globals afterwards (the dictionary is changed in
      place, so a run that raises may leave changes behind) and the message of the
      exception it raised, if any. */
  datatype Run = Run(globals: Globals, raised: Option<string>)

  /** The interpreter behaviour the runtime relies on:
      `exec` runs code against the globals;
      `loads` is `json.loads`, the value or the text of its decode error;
      `subscriptError` is the text of the TypeError raised by `value['key']` on a value
      that is not a dictionary;
      `updateError` is the text of the error raised by `dict.update(value)` for a value
      that is not a JSON object;
      `show` is `str(value)` for a value that is not a string;
      `traceback` is `traceback.format_exc()` for an exception with the given text. */
  datatype Interpreter = Interpreter(
    exec: (Json, Globals) -> Run,
    loads: string -> Result<Json, string>,
    subscriptError: Json -> string,
    updateError: Json -> string,
    show: Json -> string,
    traceback: string -> string)

  /** The globals whose name starts with "output_". */
  function OutputsOf(g: Globals): (outputs: Globals)
    ensures forall k :: k in outputs <==> k in g && "output_" <= k
    ensures forall k | k in outputs :: outputs[k] == g[k]
  {
    map k | k in g && "output_" <= k :: g[k]
  }

  /** Merging globals and then keeping the outputs is keeping the outputs of each part and
      merging them, the later part winning. */
  lemma OutputsOfMerge(g: Globals, inputs: Globals)
    ensures OutputsOf(g + inputs) == OutputsOf(g) + OutputsOf(inputs)
  {
    var left, right := OutputsOf(g + inputs), OutputsOf(g) + OutputsOf(inputs);
    assert left.Keys == right.Keys;
    forall k | k in left
      ensures left[k] == right[k]
    {
      if k in inputs {
        assert k in OutputsOf(inputs);
      }
    }
  }

  /** `str(value)`: a string is itself. */
  function PyStr(j: Json, py: Interpreter): (text: string)
    ensures j.JString? ==> text == j.s
  {
    if j.JString? then j.s else py.show(j)
  }

  /** The Python type name of a non-dictionary JSON value. */
  function TypeName(j: Json): (name: string)
    requires !j.JObject?
    ensures |name| > 0
  {
    match j
    case JNull => "NoneType"
    case JBool(_) => "bool"
    case JInt(_) => "int"
    case JString(_) => "str"
    case JArray(_) => "list"
  }

  /** The text of the AttributeError raised by `value.get('id')` on a value that is not a
      dictionary. */
  function NoGet(j: Json): string
    requires !j.JObject?
  {
    "'" + TypeName(j) + "' object has no attribute 'get'"
  }

  /** The text of a KeyError for a missing key. */
  function KeyError(key: string): string {
    "'" + key + "'"
  }

  /** `req.get('id')`: the id, or null when the request has none. */
  function IdOf(fields: map<string, Json>): (id: Json)
    ensures "id" in fields ==> id == fields["id"]
    ensures "id" !in fields ==> id == JNull
  {
    if "id" in fields then fields["id"] else JNull
  }

  const PARSE_ERROR: int := -32700
  const METHOD_NOT_FOUND: int := -32601
  const INTERNAL_ERROR: int := -32603

  /** A response carrying a result. */
  function Success(result: Globals, id: Json): Json {
    JObject(map["jsonrpc" := JString("2.0"), "result" := JObject(result), "id" := id])
  }

  /** A response carrying an error object, with a `data` member when one is given. */
  function Failure(code: int, message: string, data: Option<string>, id: Json): Json {
    var error := map["code" := JInt(code), "message" := JString(message)];
    var full := if data.Some? then error["data" := JString(data.value)] else error;
    JObject(map["jsonrpc" := JString("2.0"), "error" := JObject(full), "id" := id])
  }

  /** The internal-error response of the `except Exception` branch, with the traceback. */
  function Internal(message: string, py: Interpreter, fields: map<string, Json>): Json {
    Failure(INTERNAL_ERROR, message, Some(py.traceback(message)), IdOf(fields))
  }

  /** A JSON-RPC 2.0 response: an object with version "2.0", an id, and exactly one of a
      result and an error object holding an integer code and a string message. */
  predicate WellFormed(j: Json) {
    && j.JObject?
    && "jsonrpc" in j.fields && j.fields["jsonrpc"] == JString("2.0")
    && "id" in j.fields
    && (("result" in j.fields) != ("error" in j.fields))
    && ("error" in j.fields ==>
          var e := j.fields["error"];
          e.JObject? && "code" in e.fields && e.fields["code"].JInt?
          && "message" in e.fields && e.fields["message"].JString?)
  }

  /** Both response shapes are well formed. */
  lemma ResponsesWellFormed(result: Globals, id: Json, code: int, message: string, data: Option<string>)
    ensures WellFormed(Success(result, id))
    ensures WellFormed(Failure(code, message, data, id))
    ensures Failure(code, message, data, id).fields["error"].fields["code"] == JInt(code)
    ensures Failure(code, message, data, id).fields["error"].fields["message"] == JString(message)
  {
    var error := map["code" := JInt(code), "message" := JString(message)];
    var full := if data.Some? then error["data" := JString(data.value)] else error;
    assert "code" in full && "message" in full;
  }

  /** The index of the first empty string, or the length when there is none: the number
      of lines `readline` returns before reporting the end of input. */
  function LinesBeforeEnd(lines: seq<string>): (n: nat)
    ensures n <= |lines| && (n < |lines| ==> lines[n] == "")
    ensures forall i | 0 <= i < n :: lines[i] != ""
  {
    if |lines| == 0 || lines[0] == "" then 0
    else
      var n := LinesBeforeEnd(lines[1..]);
      assert forall i | 1 <= i < |lines| :: lines[i] == lines[1..][i - 1];
      n + 1
  }

  /** The code and the inputs of an "execute_python" request whose `params` is an object
      holding `code`; the inputs are an empty object when `params` has none. */
  function Call(fields: map<string, Json>): (c: Option<(Json, Json)>)
    ensures c.Some? <==>
      && "method" in fields && fields["method"] == JString("execute_python")
      && "params" in fields && fields["params"].JObject? && "code" in fields["params"].fields
    ensures c.Some? ==>
      && c.value.0 == fields["params"].fields["code"]
      && c.value.1 == Get(fields["params"], "inputs").GetOr(JObject(map[]))
  {
    if "method" in fields && fields["method"] == JString("execute_python")
       && "params" in fields && fields["params"].JObject? && "code" in fields["params"].fields
    then Some((fields["params"].fields["code"], Get(fields["params"], "inputs").GetOr(JObject(map[]))))
    else None
  }

  /** What `handle_request` does with one line against the globals `g`: the response, or
      the text of the exception that escapes it (a request that is not an object), and
      the globals afterwards. */
  function Respond(line: string, py: Interpreter, g: Globals): (a: (Result<Json, string>, Globals))
    ensures a.0.Err? <==> py.loads(line).Ok? && !py.loads(line).value.JObject?
    ensures a.1 != g ==>
      py.loads(line).Ok? && py.loads(line).value.JObject? && Call(py.loads(line).value.fields).Some?
  {
    match py.loads(line)
    case Err(e) => (Ok(Failure(PARSE_ERROR, "JSON 解析错误: " + e, None, JNull)), g)
    case Ok(req) =>
      if !req.JObject? then (Err(NoGet(req)), g)
      else
        var fields := req.fields;
        if "method" !in fields then (Ok(Internal(KeyError("method"), py, fields)), g)
        else if fields["method"] != JString("execute_python") then
          (Ok(if "id" in fields
              then Failure(METHOD_NOT_FOUND, "方法不存在: " + PyStr(fields["method"], py), None, fields["id"])
              else Internal(KeyError("id"), py, fields)), g)
        else
          match Call(fields)
          case None =>
            (Ok(Internal(if "params" !in fields then KeyError("params")
                         else if !fields["params"].JObject? then py.subscriptError(fields["params"])
                         else KeyError("code"), py, fields)), g)
          case Some((code, inputs)) =>
            if !inputs.JObject? then (Ok(Internal(py.updateError(inputs), py, fields)), g)
            else
              var run := py.exec(code, g + inputs.fields);
              (Ok(if run.raised.Some? then Internal("执行错误: " + run.raised.value, py, fields)
                  else if "id" in fields then Success(OutputsOf(run.globals), fields["id"])
                  else Internal(KeyError("id"), py, fields)), run.globals)
  }

  /** Every response `handle_request` returns is well formed. */
  lemma RespondWellFormed(line: string, py: Interpreter, g: Globals)
    ensures Respond(line, py, g).0.Ok? ==> WellFormed(Respond(line, py, g).0.value)
  {
    var a := Respond(line, py, g);
    if a.0.Ok? {
      if py.loads(line).Err? {
        ResponsesWellFormed(map[], JNull, PARSE_ERROR, "JSON 解析错误: " + py.loads(line).error, None);
      } else {
        var fields := py.loads(line).value.fields;
        var message := if "method" !in fields then KeyError("method")
                       else if fields["method"] != JString("execute_python") then
                         (if "id" in fields then "方法不存在: " + PyStr(fields["method"], py) else KeyError("id"))
                       else if Call(fields).None? then
                         (if "params" !in fields then KeyError("params")
                          else if !fields["params"].JObject? then py.subscriptError(fields["params"])
                          else KeyError("code"))
                       else if !Call(fields).value.1.JObject? then py.updateError(Call(fields).value.1)
                       else
                         var run := py.exec(Call(fields).value.0, g + Call(fields).value.1.fields);
                         if run.raised.Some? then "执行错误: " + run.raised.value else KeyError("id");
        ResponsesWellFormed(if "method" in fields && fields["method"] == JString("execute_python")
                               && Call(fields).Some? && Call(fields).value.1.JObject?
                            then OutputsOf(a.1) else map[], IdOf(fields),
                            METHOD_NOT_FOUND, message, None);
        ResponsesWellFormed(map[], IdOf(fields), INTERNAL_ERROR, message, Some(py.traceback(message)));
      }
    }
  }

  /** The line printed for one request: the response, or for an exception that escapes
      `handle_request` the -32603 "运行时错误: <text>" error with a null id. */
  function Reply(r: Result<Json, string>): (j: Json)
    ensures r.Err? ==> WellFormed(j) && j.fields["id"] == JNull
  {
    match r
    case Ok(response) => response
    case Err(text) =>
      ResponsesWellFormed(map[], JNull, INTERNAL_ERROR, "运行时错误: " + text, None);
      Failure(INTERNAL_ERROR, "运行时错误: " + text, None, JNull)
  }

  /** One step of the main loop: a line and the globals before it, to what
      `handle_request` answers and the globals after it. */
  type Step = (string, Globals) -> (Result<Json, string>, Globals)

  /** `handle_request` of the runtime as a step. */
  function Handler(py: Interpreter): (step: Step)
    ensures forall line, g :: step(line, g) == Respond(line, py, g)
  {
    (line, g) => Respond(line, py, g)
  }

  /** The lines printed for `lines`, each request answered by `step` against the globals
      the earlier ones left, and the globals at the end. */
  function Session(lines: seq<string>, step: Step, g: Globals): (s: (seq<Json>, Globals))
    ensures |s.0| == |lines|
  {
    if |lines| == 0 then ([], g)
    else
      var before := Session(lines[..|lines| - 1], step, g);
      var a := step(lines[|lines| - 1], before.1);
      (before.0 + [Reply(a.0)], a.1)
  }

  /** The session over a prefix of the lines is the prefix of the session. */
  lemma {:induction false} SessionPrefix(lines: seq<string>, step: Step, g: Globals, j: nat)
    requires j <= |lines|
    ensures Session(lines[..j], step, g).0 == Session(lines, step, g).0[..j]
    decreases |lines|
  {
    if j < |lines| {
      var init := lines[..|lines| - 1];
      assert lines[..j] == init[..j];
      SessionPrefix(init, step, g, j);
    } else {
      assert lines[..j] == lines;
    }
  }

  /** The `i`-th line printed answers the `i`-th request, in the globals left by the
      requests before it. */
  lemma SessionStep(lines: seq<string>, step: Step, g: Globals, i: nat)
    requires i < |lines|
    ensures Session(lines, step, g).0[i] == Reply(step(lines[i], Session(lines[..i], step, g).1).0)
  {
    var pre := lines[..i + 1];
    SessionPrefix(lines, step, g, i + 1);
    assert pre[..i] == lines[..i] && pre[i] == lines[i];
  }

  /** Every line of a session answers its request in the globals left by the ones before,
      and is a well-formed response when every answer of the step is. */
  lemma SessionAnswers(lines: seq<string>, step: Step, g: Globals)
    requires forall line, h :: step(line, h).0.Ok? ==> WellFormed(step(line, h).0.value)
    ensures forall i | 0 <= i < |lines| ::
      && Session(lines, step, g).0[i] == Reply(step(lines[i], Session(lines[..i], step, g).1).0)
      && WellFormed(Session(lines, step, g).0[i])
  {
    forall i | 0 <= i < |lines|
      ensures Session(lines, step, g).0[i] == Reply(step(lines[i], Session(lines[..i], step, g).1).0)
      ensures WellFormed(Session(lines, step, g).0[i])
    {
      SessionStep(lines, step, g, i);
      ReplyWellFormed(step(lines[i], Session(lines[..i], step, g).1).0);
    }
  }

  /** Every printed line is a well-formed response when the response it prints is. */
  lemma ReplyWellFormed(r: Result<Json, string>)
    requires r.Ok? ==> WellFormed(r.value)
    ensures WellFormed(Reply(r))
  {
  }

  /** The per-line facts of the runtime's session, read back on the lines before the end
      of input. */
  lemma Served(lines: seq<string>, py: Interpreter, g: Globals, n: nat)
    requires n <= |lines|
    ensures forall i | 0 <= i < n ::
      && Session(lines[..n], Handler(py), g).0[i]
         == Reply(Respond(lines[i], py, Session(lines[..i], Handler(py), g).1).0)
      && WellFormed(Session(lines[..n], Handler(py), g).0[i])
  {
    forall line, h
      ensures Handler(py)(line, h).0.Ok? ==> WellFormed(Handler(py)(line, h).0.value)
    {
      RespondWellFormed(line, py, h);
    }
    SessionAnswers(lines[..n], Handler(py), g);
    forall i | 0 <= i < n
      ensures lines[..n][..i] == lines[..i] && lines[..n][i] == lines[i]
    {
    }
  }

  class MicroFlowRuntime {
    var globals: Globals

    /** A runtime with no globals. */
    constructor()
      ensures globals == map[]
    {
      globals := map[];
    }

    /** `execute`: the inputs are merged into the globals (a later value replacing an
        earlier one), the code is run against them, and the globals named `output_...`
        are returned, including ones left by earlier requests. Inputs that are not an
        object fail before anything changes; a failing run fails with "执行错误: " and its
        message and keeps what it changed. */
    method Execute(code: Json, inputs: Json, py: Interpreter) returns (r: Result<Globals, string>)
      modifies this
      ensures !inputs.JObject? ==> r == Err(py.updateError(inputs)) && globals == old(globals)
      ensures inputs.JObject? ==> globals == py.exec(code, old(globals) + inputs.fields).globals
      ensures inputs.JObject? ==>
        match py.exec(code, old(globals) + inputs.fields).raised
        case Some(message) => r == Err("执行错误: " + message)
        case None => r == Ok(OutputsOf(globals))
    {
      if !inputs.JObject? {
        return Err(py.updateError(inputs));
      }
      globals := globals + inputs.fields;
      var run := py.exec(code, globals);
      globals := run.globals;
      if run.raised.Some? {
        return Err("执行错误: " + run.raised.value);
      }
      var outputs := CollectOutputs();
      r := Ok(outputs);
    }

    /** The `for key, value in self.globals.items()` loop of `execute`. */
    method CollectOutputs() returns (outputs: Globals)
      ensures outputs == OutputsOf(globals)
    {
      outputs := map[];
      var rest := globals.Keys;
      while rest != {}
        invariant rest <= globals.Keys
        invariant outputs == OutputsOf(globals - rest)
        decreases rest
      {
        var key :| key in rest;
        if "output_" <= key {
          outputs := outputs[key := globals[key]];
        }
        rest := rest - {key};
        assert globals - rest == (globals - (rest + {key}))[key := globals[key]];
      }
      assert globals - {} == globals;
    }

    /** `handle_request`. Unparsable JSON is answered with -32700 and a null id. A request
        that is not an object makes the error handler itself fail on `req.get`, so the
        exception leaves `handle_request` (the Err result, with its text). For an object:
        "execute_python" runs the code and answers with its outputs and the request's id;
        any other method is answered with -32601 "方法不存在: <method>" and the id; every
        failure on the way (a missing key, a failing run) is answered with -32603, the
        exception's text, its traceback and the id if there is one. */
    method HandleRequest(line: string, py: Interpreter) returns (r: Result<Json, string>)
      modifies this
      ensures (r, globals) == Respond(line, py, old(globals))
      ensures py.loads(line).Err? ==>
        r == Ok(Failure(PARSE_ERROR, "JSON 解析错误: " + py.loads(line).error, None, JNull))
        && globals == old(globals)
      ensures py.loads(line).Ok? && !py.loads(line).value.JObject? ==>
        r == Err(NoGet(py.loads(line).value)) && globals == old(globals)
      ensures r.Err? ==> py.loads(line).Ok? && !py.loads(line).value.JObject?
      ensures r.Ok? ==> WellFormed(r.value)
      ensures py.loads(line).Ok? && py.loads(line).value.JObject? ==>
        var fields := py.loads(line).value.fields;
        && ("method" !in fields ==> r == Ok(Internal(KeyError("method"), py, fields)))
        && ("method" in fields && fields["method"] != JString("execute_python") ==>
              r == Ok(if "id" in fields
                      then Failure(METHOD_NOT_FOUND, "方法不存在: " + PyStr(fields["method"], py), None, fields["id"])
                      else Internal(KeyError("id"), py, fields))
              && globals == old(globals))
      ensures py.loads(line).Ok? && py.loads(line).value.JObject? ==>
        var fields := py.loads(line).value.fields;
        Call(fields).Some? && Call(fields).value.1.JObject? ==>
        var run := py.exec(Call(fields).value.0, old(globals) + Call(fields).value.1.fields);
        && globals == run.globals
        && (run.raised.Some? ==> r == Ok(Internal("执行错误: " + run.raised.value, py, fields)))
        && (run.raised.None? ==>
              r == Ok(if "id" in fields then Success(OutputsOf(globals), fields["id"])
                      else Internal(KeyError("id"), py, fields)))
    {
      var parsed := py.loads(line);
      if parsed.Err? {
        ResponsesWellFormed(map[], JNull, PARSE_ERROR, "JSON 解析错误: " + parsed.error, None);
        return Ok(Failure(PARSE_ERROR, "JSON 解析错误: " + parsed.error, None, JNull));
      }
      var req := parsed.value;
      if !req.JObject? {
        return Err(NoGet(req));
      }
      var fields := req.fields;
      var response := Dispatch(fields, py);
      r := Ok(response);
    }

    /** The body of `handle_request` for a request that is an object. */
    method Dispatch(fields: map<string, Json>, py: Interpreter) returns (response: Json)
      modifies this
      ensures WellFormed(response)
      ensures "method" !in fields ==> response == Internal(KeyError("method"), py, fields) && globals == old(globals)
      ensures "method" in fields && fields["method"] != JString("execute_python") ==>
        response == (if "id" in fields
                     then Failure(METHOD_NOT_FOUND, "方法不存在: " + PyStr(fields["method"], py), None, fields["id"])
                     else Internal(KeyError("id"), py, fields))
        && globals == old(globals)
      ensures "method" in fields && fields["method"] == JString("execute_python") && Call(fields).None? ==>
        response == Internal(if "params" !in fields then KeyError("params")
                             else if !fields["params"].JObject? then py.subscriptError(fields["params"])
                             else KeyError("code"), py, fields)
        && globals == old(globals)
      ensures Call(fields).Some? && !Call(fields).value.1.JObject? ==>
        response == Internal(py.updateError(Call(fields).value.1), py, fields) && globals == old(globals)
      ensures Call(fields).Some? && Call(fields).value.1.JObject? ==>
        var run := py.exec(Call(fields).value.0, old(globals) + Call(fields).value.1.fields);
        && globals == run.globals
        && (run.raised.Some? ==> response == Internal("执行错误: " + run.raised.value, py, fields))
        && (run.raised.None? ==>
              response == if "id" in fields then Success(OutputsOf(globals), fields["id"])
                      else Internal(KeyError("id"), py, fields))
    {
      if "method" !in fields {
        ResponsesWellFormed(map[], JNull, INTERNAL_ERROR, KeyError("method"), Some(py.traceback(KeyError("method"))));
        return Internal(KeyError("method"), py, fields);
      }
      var name := fields["method"];
      if name != JString("execute_python") {
        var message := "方法不存在: " + PyStr(name, py);
        if "id" !in fields {
          ResponsesWellFormed(map[], JNull, INTERNAL_ERROR, KeyError("id"), Some(py.traceback(KeyError("id"))));
          return Internal(KeyError("id"), py, fields);
        }
        ResponsesWellFormed(map[], fields["id"], METHOD_NOT_FOUND, message, None);
        return Failure(METHOD_NOT_FOUND, message, None, fields["id"]);
      }
      response := RunRequest(fields, py);
    }

    /** The "execute_python" branch: `req['params']['code']`, the inputs (an empty object
        when absent), the run, and the response carrying the outputs and `req['id']`. */
    method RunRequest(fields: map<string, Json>, py: Interpreter) returns (response: Json)
      requires "method" in fields && fields["method"] == JString("execute_python")
      modifies this
      ensures WellFormed(response)
      ensures Call(fields).None? ==>
        response == Internal(if "params" !in fields then KeyError("params")
                             else if !fields["params"].JObject? then py.subscriptError(fields["params"])
                             else KeyError("code"), py, fields)
        && globals == old(globals)
      ensures Call(fields).Some? && !Call(fields).value.1.JObject? ==>
        response == Internal(py.updateError(Call(fields).value.1), py, fields) && globals == old(globals)
      ensures Call(fields).Some? && Call(fields).value.1.JObject? ==>
        var run := py.exec(Call(fields).value.0, old(globals) + Call(fields).value.1.fields);
        && globals == run.globals
        && (run.raised.Some? ==> response == Internal("执行错误: " + run.raised.value, py, fields))
        && (run.raised.None? ==>
              response == if "id" in fields then Success(OutputsOf(globals), fields["id"])
                      else Internal(KeyError("id"), py, fields))
    {
      if "params" !in fields {
        ResponsesWellFormed(map[], JNull, INTERNAL_ERROR, KeyError("params"), Some(py.traceback(KeyError("params"))));
        return Internal(KeyError("params"), py, fields);
      }
      var params := fields["params"];
      if !params.JObject? {
        var message := py.subscriptError(params);
        ResponsesWellFormed(map[], JNull, INTERNAL_ERROR, message, Some(py.traceback(message)));
        return Internal(message, py, fields);
      }
      if "code" !in params.fields {
        ResponsesWellFormed(map[], JNull, INTERNAL_ERROR, KeyError("code"), Some(py.traceback(KeyError("code"))));
        return Internal(KeyError("code"), py, fields);
      }
      var code := params.fields["code"];
      var inputs := if "inputs" in params.fields then params.fields["inputs"] else JObject(map[]);
      var result := Execute(code, inputs, py);
      if result.Err? {
        ResponsesWellFormed(map[], JNull, INTERNAL_ERROR, result.error, Some(py.traceback(result.error)));
        return Internal(result.error, py, fields);
      }
      if "id" !in fields {
        ResponsesWellFormed(map[], JNull, INTERNAL_ERROR, KeyError("id"), Some(py.traceback(KeyError("id"))));
        return Internal(KeyError("id"), py, fields);
      }
      ResponsesWellFormed(result.value, fields["id"], 0, "", None);
      response := Success(result.value, fields["id"]);
    }

    /** The main loop: one response per request line, in order, until `readline` reports
        the end of input with an empty string. An exception that leaves `handle_request`
        is answered with -32603 "运行时错误: <text>" and a null id. The globals carry over
        from one request to the next. */
    method Serve(lines: seq<string>, py: Interpreter) returns (out: seq<Json>)
      modifies this
      ensures (out, globals) == Session(lines[..LinesBeforeEnd(lines)], Handler(py), old(globals))
      ensures |out| == LinesBeforeEnd(lines)
      ensures forall i | 0 <= i < |out| ::
        && out[i] == Reply(Respond(lines[i], py, Session(lines[..i], Handler(py), old(globals)).1).0)
        && WellFormed(out[i])
    {
      out := [];
      var n := LinesBeforeEnd(lines);
      var i := 0;
      while i < |lines| && lines[i] != ""
        invariant i <= n
        invariant (out, globals) == Session(lines[..i], Handler(py), old(globals))
      {
        var r := HandleRequest(lines[i], py);
        assert lines[..i + 1][..i] == lines[..i];
        out := out + [Reply(r)];
        i := i + 1;
      }
      Served(lines, py, old(globals), n);
    }
  }
}
