# MicroFlow engine core in Dafny

MicroFlow runs node workflows (an input node, LLM nodes, an output node joined by typed
edges) and hands Python snippets to a pool of worker processes. This project models the
bookkeeping at the centre of it and proves what that bookkeeping promises:

- the node lifecycle state machine, its transition table, its labels, and the context that
  records a history and per-transition counters (`state_machine.dfy`);
- the model-residency pool: an LRU cache over a logical clock plus a fixed array of slots
  (`vram_pool.dfy`), and the call sequences of the pool's own tests (`vram_scenarios.dfy`);
- workflow ordering and execution: Kahn's topological sort over adjacency and in-degree
  tables, dispatch on the node type, and the per-run output table (`executor.dfy`,
  `context.dfy`, `serialization.dfy`, `graphs.dfy`);
- workflow validation: depth-first cycle detection and the allow-list of node-type pairs
  (`validator.dfy`);
- the script worker pool (`python_manager.dfy`), the host side of the JSON-RPC exchange
  with a worker (`script_executor.dfy`) and the worker's request loop
  (`script_runtime.dfy`), with processes, pipes and the Python interpreter abstracted;
- the value and type layer: `DataValue` equality, its type, its conversion table
  including base64 as defined in section 4 of RFC 4648 (`data_value.dfy`, `base64.dfy`),
  and the `DataType` display (`data_type.dfy`);
- the GGUF LoRA header check over the bytes read (`lora_loader.dfy`);
- ports, connections, the three simple node kinds (`ports.dfy`, `connection.dfy`,
  `nodes.dfy`, `last_wins.dfy`) and the script library's metadata parsing and grouping
  (`python_library.dfy`).

Time is a logical clock everywhere: `Instant::now()` becomes a counter that increases with
every stamp, so "least recently used" is well defined. What the operating system or the
interpreter decides (which workers are alive, whether a spawn fails, what `exec` does,
what `json.loads` returns) is passed in as a parameter.

## Model

| member | source | states |
|---|---|---|
| StateMachine.CanTransition | core/src/engine/state_machine.rs:97-126 | nothing moves to Idle and nothing leaves Completed or Cancelled; Pending is entered only from Idle |
| StateMachine.AsStr | core/src/engine/state_machine.rs:143-158 | the label starts with "Running::" exactly for the Running states |
| StateMachine.StateTransition | core/src/engine/state_machine.rs:129-140 | a transition succeeds exactly when the table allows it and then yields the target; otherwise it is `InvalidTransition("Cannot transition from <from> to <to>")` with both labels |
| StateMachine.CanTransitionFollowsTable | core/src/engine/state_machine.rs:97-126 | the table agrees with an independent kind-level table: Idle→Pending; Pending→Running, Error, Cancelled; Running→Running, Completed, Error, Cancelled; Error→Running only when recoverable; nothing out of Completed or Cancelled |
| StateMachine.TerminalAndInitialStates | core/src/engine/state_machine.rs:100-124 | Completed and Cancelled accept no target, nothing re-enters Idle, and Pending is reachable only from Idle |
| StateMachine.AsStrDistinguishesKinds | core/src/engine/state_machine.rs:143-158 | equal labels mean the same state kind and, for Running, the same sub-state kind: the label identifies the state up to its payload |
| StateMachine.RecordTransition | core/src/engine/state_machine.rs:178-192 | appending an allowed target keeps the history a valid trace, and bumping the (old, new) counter by one keeps every counter equal to the number of times that pair occurs in the history |
| StateMachine.ValidTraceShape | core/src/engine/state_machine.rs:97-126 | in any valid history Idle appears only first, Pending only second right after Idle, and Completed or Cancelled only last |
| StateMachine.CountPairsAppend | core/src/engine/state_machine.rs:188-189 | extending a history by one state adds one occurrence of exactly the pair it closes |
| StateMachine.StateMachineContext.constructor | core/src/engine/state_machine.rs:169-175 | the given current state, an empty history and no counters |
| StateMachine.StateMachineContext.Transition | core/src/engine/state_machine.rs:178-192 | succeeds exactly when the table allows it; then the state is the target, the old state is appended to the history and the (old, new) counter grows by one; on failure the error of `transition` is returned and nothing changes |
| Vram.OldestUnique | core/src/vram/pool.rs:62-75 | with distinct access times there is exactly one least recently used key |
| Vram.StampKeepsTimes | core/src/vram/pool.rs:46-60 | stamping a key with a time later than every other keeps all access times distinct |
| Vram.LruCache.constructor | core/src/vram/pool.rs:29-34 | an empty cache with the given capacity |
| Vram.LruCache.Get | core/src/vram/pool.rs:36-44 | a present key returns its value and becomes the most recently used, everything else unchanged; an absent key returns None and changes nothing |
| Vram.LruCache.EvictOldest | core/src/vram/pool.rs:62-75 | None exactly on an empty cache; otherwise removes and returns the least recently used key and nothing else |
| Vram.LruCache.Insert | core/src/vram/pool.rs:46-60 | a present key gets the new value and a fresh time without eviction; a new key in a full cache first evicts the least recently used entry; the size never exceeds a positive capacity |
| Vram.LruCache.Len | core/src/vram/pool.rs:81-83 | the number of cached entries |
| Vram.OccupiedSize | core/src/vram/pool.rs:204-206 | in a slot row without repeated ids the number of occupied slots is the number of resident ids, and every slot is occupied exactly when no slot is empty |
| Vram.IndexOf | core/src/vram/pool.rs:191 | `position`: the first index holding the value |
| Vram.SetSlot | core/src/vram/pool.rs:153-157 | writing an id that is not yet in the row keeps ids distinct and changes the resident set by exactly the overwritten and the written id |
| Vram.FreedSlotIsFirstEmpty | core/src/vram/pool.rs:168-177 | in a full row, the slot freed for a resident is the first empty one afterwards |
| Vram.EmptySlotExists | core/src/vram/pool.rs:149-150 | when fewer models are resident than there are slots an empty slot exists, otherwise none does |
| Vram.InsertIntoRoom | core/src/vram/pool.rs:137-157 | the insert of a new id keeps occupied slot ids equal to the cached keys, and puts the id into the first empty slot or into the evicted model's slot |
| Vram.FreeSlot | core/src/vram/pool.rs:168-177 | freeing an id keeps the row length; a resident id leaves its first slot empty and nothing else changes; an absent id changes nothing |
| Vram.FreeKeepsAgreement | core/src/vram/pool.rs:138-143 | removing an evicted id from the cache and from its slot keeps slot ids distinct and equal to the cached keys |
| Vram.InsertSteps | core/src/vram/pool.rs:137-157 | eviction, cache insert and slot write together make the new-id outcome: the evicted id is the least recently used and goes exactly when the cache is full, the id is cached with the current time, and the slot written is the first empty one after the eviction, else the first with the oldest stamp |
| Vram.VramPool.constructor | core/src/vram/pool.rs:99-114 | as many empty slots as the capacity, an empty cache, a consistent pool |
| Vram.VramPool.Usage | core/src/vram/pool.rs:214-216 | the number of cached models |
| Vram.VramPool.UsageBounded | core/src/vram/pool.rs:214-216 | in a consistent pool usage never exceeds the capacity |
| Vram.VramPool.GetSlotStatus | core/src/vram/pool.rs:204-206 | the id in each slot, in slot order |
| Vram.VramPool.Status | core/src/vram/pool.rs:204-206 | the id held by each slot, one entry per slot |
| Vram.VramPool.FindEmptySlot | core/src/vram/pool.rs:190-192 | the first empty slot, None when every slot is occupied |
| Vram.VramPool.FindOldestSlot | core/src/vram/pool.rs:195-201 | a slot with the least access stamp, the first such; None only for a pool without slots, where the source panics |
| Vram.VramPool.UpdateSlotAccessTime | core/src/vram/pool.rs:180-187 | restamps the first slot holding the id and no other; the slot row is unchanged |
| Vram.VramPool.RemoveFromSlot | core/src/vram/pool.rs:168-177 | empties the first slot holding the id, and nothing when no slot holds it |
| Vram.VramPool.Get | core/src/vram/pool.rs:117-126 | the cached model or None; a hit refreshes the cache time, and the slot holding the id (the first, when the pool is inconsistent) is restamped with the old clock, every other slot unchanged; a miss changes nothing; consistency is kept |
| Vram.VramPool.Evict | core/src/vram/pool.rs:163-165 | removes the least recently used model from the cache only; the slot row is unchanged (see Findings) |
| Vram.VramPool.EvictAndFree | core/src/vram/pool.rs:138-143 | removes the least recently used model from the cache and empties its first slot, nothing else in the row changes; a consistent pool stays consistent |
| Vram.VramPool.MakeRoom | core/src/vram/pool.rs:137-143 | a full pool loses its least recently used model and that model's first slot is emptied; a pool with room is untouched |
| Vram.VramPool.PlaceInSlot | core/src/vram/pool.rs:148-157 | writes the id, the model and the current stamp into the first empty slot, else into the first slot with the oldest stamp, and changes no other slot; None only for a pool without slots |
| Vram.VramPool.Insert | core/src/vram/pool.rs:129-160 | a resident id is refreshed without eviction, and the slot holding it is restamped with the old clock while every other slot is unchanged; in any pool state a new id evicts the least recently used model exactly when the cache is full, is cached with the current time, and takes the first empty slot after the eviction, else the first slot with the oldest stamp; a consistent pool stays consistent; fails only for capacity 0 |
| Vram.VramPool.InsertNew | core/src/vram/pool.rs:137-159 | the new-id path of `insert`, from any pool state: eviction exactly when full, the cache insert and the slot write as stated for `Insert` |
| VramScenarios.EmptyPool | core/src/vram/test_pool.rs:20-33 | a new pool of two has capacity 2, usage 0, two empty slots, and finds nothing |
| VramScenarios.PlaceFirst | core/src/vram/test_pool.rs:36-51 | the first model takes the first slot |
| VramScenarios.PlaceSecond | core/src/vram/test_pool.rs:54-75 | a second model takes the second slot and is the newer one |
| VramScenarios.FillPool | core/src/vram/test_pool.rs:54-70 | two inserts fill both slots, one model per slot |
| VramScenarios.PlaceNew | core/src/vram/pool.rs:145-157 | a new model inserted while there is room goes into the first empty slot, stamped now |
| VramScenarios.PlaceOverOldest | core/src/vram/pool.rs:137-157 | a new model inserted into a full pool takes the slot of the least recently used model, which leaves the cache |
| VramScenarios.ReplaceOldest | core/src/vram/pool.rs:137-157 | in a full pool of two the older model's slot receives the new model |
| VramScenarios.TouchFirst | core/src/vram/test_pool.rs:90-91 | looking up the older of two models makes it the newer one |
| VramScenarios.TouchThenReplace | core/src/vram/test_pool.rs:77-95 | insert m1, insert m2, get m1, insert m3 leaves m1 and m3 resident |
| VramScenarios.LruEviction | core/src/vram/test_pool.rs:77-108 | the test's observations: usage 2, m1 and m3 in the slots, m2 gone, m1 and m3 found and m2 not |
| VramScenarios.Observe | core/src/vram/test_pool.rs:97-107 | what the test reads from a pool holding the two survivors |
| VramScenarios.Readings | core/src/vram/test_pool.rs:98-102 | usage and slot row of a pool holding the two survivors |
| VramScenarios.Lookups | core/src/vram/test_pool.rs:105-107 | both survivors are found, the evicted model is not |
| VramScenarios.LookupTwo | core/src/vram/test_pool.rs:134-135 | looking up two cached models returns what is cached under them |
| VramScenarios.SlotManagement | core/src/vram/test_pool.rs:160-191 | without the lookup m1 is the model evicted and m3 takes its slot, m2 stays |
| VramScenarios.DuplicateInsert | core/src/vram/test_pool.rs:110-136 | re-inserting a resident model evicts nothing, keeps both slots and serves the new value |
| VramScenarios.CountOccupied | core/src/vram/test_pool.rs:157 | the number of occupied slots, zero exactly for an all-empty row |
| VramScenarios.Tally | core/src/vram/test_pool.rs:154-157 | usage, occupied-slot count and whether slot ids equal cached keys |
| VramScenarios.EvictLeavesSlotOccupied | core/src/vram/test_pool.rs:138-158 | as written, the public `evict` leaves usage 1 but two occupied slots and an inconsistent pool |
| VramScenarios.EvictOlderOfTwo | core/src/vram/pool.rs:163-165 | on a pool of two, `evict` as written removes the older model from the cache but not from its slot |
| VramScenarios.EvictFreesSlot | core/src/vram/test_pool.rs:138-158 | eviction that also frees the slot meets the test: usage 1, one occupied slot, consistent |
| VramScenarios.FreeOlderOfTwo | core/src/vram/pool.rs:138-143 | on a pool of two, freeing eviction removes the older model from cache and slot |
| Executor.BuildTables | core/src/workflow/executor.rs:86-103 | the adjacency lists are the edges in order, the in-degree table covers the declared nodes and every edge target, each with its number of incoming edges |
| Executor.DeclareNodes | core/src/workflow/executor.rs:91-94 | every declared node with in-degree 0 |
| Executor.AddEdges | core/src/workflow/executor.rs:97-103 | one adjacency push and one in-degree increment per edge, so every count is the number of incoming edges |
| Executor.DegreeStep | core/src/workflow/executor.rs:102 | one increment keeps the in-degree table exact for the edges seen so far |
| Executor.InitialQueue | core/src/workflow/executor.rs:106-111 | the queue holds, once each, exactly the nodes of in-degree zero |
| Executor.EmitNode | core/src/workflow/executor.rs:114-115 | emitting the queue's front keeps the loop invariant: no repeats, predecessors first, counts equal the pending incoming edges |
| Executor.DecrementSuccessor | core/src/workflow/executor.rs:118-123 | decrementing a successor's count and queueing it at zero keeps the loop invariant |
| Executor.Drain | core/src/workflow/executor.rs:113-126 | the emitted order has no repeats, only tracked nodes, every node after all its predecessors, and whatever was not emitted waits on another node not emitted |
| Executor.WorkOff | core/src/workflow/executor.rs:117-125 | working off the emitted node's successors restores the loop invariant |
| Executor.Kahn | core/src/workflow/executor.rs:86-126 | the emitted order is a Kahn outcome over the declared nodes and edge targets, and the tracked count is their number |
| Executor.QueueEmpty | core/src/workflow/executor.rs:114 | when the queue runs dry the emitted order is a Kahn outcome |
| Executor.ForwardAcyclic | core/src/workflow/executor.rs:113-126 | an order without repeats that places every edge's source before its target and contains every target proves the edges acyclic |
| Executor.ShortOrder | core/src/workflow/executor.rs:129 | a Kahn outcome that misses a tracked node, with every edge source tracked, implies a cycle |
| Executor.CountMeansAcyclic | core/src/workflow/executor.rs:129-133 | the order has as many nodes as are tracked exactly when the edges are acyclic and every source is tracked, and then it holds every tracked node |
| Executor.EmittedByBoth | core/src/workflow/executor.rs:113-126 | every node one Kahn outcome emits, any other Kahn outcome of the same graph emits too |
| Executor.KahnOutcomeUnique | core/src/workflow/executor.rs:113-126 | all Kahn outcomes of a graph emit the same nodes and the same number of them, so the count compared at line 129 does not depend on the iteration order |
| Executor.TopologicalSortAsWritten | core/src/workflow/executor.rs:84-134 | as written: the count is compared with the declared nodes only; when edges join declared nodes only, Ok exactly for acyclic edges, with every declared node once |
| Executor.TopologicalSort | core/src/workflow/executor.rs:84-134 | corrected: `CycleDetected` exactly when the edges have a cycle or an edge leaves an untracked node; otherwise every tracked node once, each edge's source before its target |
| Executor.MaskedCycleOrder | core/src/workflow/executor.rs:113-126 | on nodes A, B with edges A→X and B→B the loop emits A then X, whatever the iteration order |
| Executor.MaskedCycleShape | core/src/workflow/executor.rs:129 | that workflow has two declared nodes and a cycle |
| Executor.MaskedCycleAsWritten | core/src/workflow/executor.rs:129-133 | the as-written sort answers Ok(["A", "X"]) on that cyclic workflow |
| Executor.MaskedCycleCorrected | core/src/workflow/executor.rs:129-131 | the corrected sort answers `CycleDetected` on it |
| Executor.MaskedCycleNodes | core/src/workflow/executor.rs:86-103 | that workflow tracks A, B and X, declares A as input and B as output, and does not declare X |
| Executor.MaskedCycleRunAsWritten | core/src/workflow/executor.rs:51-82 | `execute_workflow` as written answers `NodeNotFound("X")` on that cyclic workflow |
| Executor.MaskedCycleRunCorrected | core/src/workflow/executor.rs:51-59 | the corrected run answers `CycleDetected` on it |
| Executor.MaskedCycleVerdict | core/src/workflow/executor.rs:51-82 | of the answers `execute_workflow` as written can give, on the masked cycle with the order A, X only `NodeNotFound("X")` remains |
| Executor.Label | core/src/workflow/executor.rs:151-156 | the `label` string of the node data, "" when it is missing or not a string |
| Executor.CollectInputs | core/src/workflow/executor.rs:136-143 | always the empty map |
| Executor.ExecuteInputNode | core/src/workflow/executor.rs:145-160 | Ok with the single key "text", holding the node's label as Text |
| Executor.ExecuteLlmNode | core/src/workflow/executor.rs:162-179 | Ok with the single key "result", a Text starting "AI回复: 收到 '"; without a "text" input exactly "AI回复: 收到 ''" |
| Executor.ExecuteOutputNode | core/src/workflow/executor.rs:181-194 | Ok with the single key "output": the shown "result" input as Text, "" when there is none |
| Executor.RunNode | core/src/workflow/executor.rs:68-73 | fails exactly for a type other than "input", "llm" and "output", with `UnknownNodeType(type)` |
| Executor.RunWithoutInputs | core/src/workflow/executor.rs:136-194 | with the empty inputs `collect_inputs` gives: input → {"text": label}, llm → {"result": "AI回复: 收到 ''"}, output → {"output": ""} |
| Executor.StoredStep | core/src/workflow/executor.rs:75-76 | running one more node adds its outputs under its id |
| Executor.RunInOrder | core/src/workflow/executor.rs:61-81 | Ok exactly when every node of the order is declared with a known type; then the result is the fold, in some visit order listing each tracked node once, of the maps the nodes stored, the later node winning a shared key; errors name a missing id or an unknown type met in the order |
| Executor.ExecuteWorkflow | core/src/workflow/executor.rs:51-82 | corrected: `CycleDetected` exactly when the edges have a cycle or an edge leaves a node that is neither declared nor a target; Ok exactly when additionally every tracked node is declared with a known type; `NodeNotFound` names a tracked undeclared node, `UnknownNodeType` a tracked node's type; the final outputs are the fold, in some visit order listing each tracked node once, of what the nodes stored |
| Executor.ExecuteWorkflowAsWritten | core/src/workflow/executor.rs:51-82 | as written: `CycleDetected` exactly when the Kahn outcome's length differs from the number of declared ids; otherwise the emitted nodes run, Ok exactly when each is declared with a known type, with the fold, in some visit order listing each emitted node once, of what they stored; when every edge joins declared nodes, `CycleDetected` exactly for cyclic edges |
| Validator.ChainPush | core/src/workflow/validator.rs:44-45 | pushing a successor of the top keeps the path a chain of edges |
| Validator.CycleOnStack | core/src/workflow/validator.rs:34-36 | reaching a node already on the path closes a directed cycle |
| Validator.FinishNode | core/src/workflow/validator.rs:56-58 | taking a node off the path once all its successors finished keeps the search invariant |
| Validator.CycleSearch.constructor | core/src/workflow/validator.rs:12-14 | empty `visited` and `path` over the adjacency of the edges |
| Validator.CycleSearch.HasCycle | core/src/workflow/validator.rs:27-59 | true only when a cycle exists; false leaves the node finished and `path` as it was, so `path` ⊆ `visited` throughout |
| Validator.CycleSearch.VisitNeighbors | core/src/workflow/validator.rs:48-54 | stops at the first neighbour that finds a cycle; otherwise every neighbour is finished |
| Validator.CycleSearch.SearchAll | core/src/workflow/validator.rs:16-21 | true only when a cycle exists; otherwise every edge source is finished |
| Validator.BuildAdjacency | core/src/workflow/validator.rs:6-10 | the adjacency lists, one push per edge in edge order |
| Validator.DetectCycles | core/src/workflow/validator.rs:5-24 | Err("工作流中存在循环依赖") exactly when the edges contain a directed cycle; an empty edge list is Ok |
| Validator.ValidateTypeMatch | core/src/workflow/validator.rs:64-79 | Ok exactly for (input, llm), (llm, output), (input, output), (llm, llm); any other pair is rejected naming both types |
| Graphs.SelfLoopIsCycle | core/src/workflow/validator.rs:34-36 | an edge (a, a) is a cycle |
| Graphs.RankedAcyclic | core/src/workflow/validator.rs:56-58 | a ranking that decreases along every edge rules out cycles |
| Graphs.StalledSetHasCycle | core/src/workflow/executor.rs:114-126 | a non-empty set of nodes each with a predecessor inside it contains a cycle |
| Graphs.SuccIsLinked | core/src/workflow/validator.rs:7-10 | a node is in another's adjacency list exactly when an edge joins them |
| Context.ExecutionContext.constructor | core/src/workflow/context.rs:18-23 | no node outputs |
| Context.ExecutionContext.SetOutputs | core/src/workflow/context.rs:36-38 | the map is stored under the node id, replacing any earlier one; other nodes are untouched |
| Context.ExecutionContext.SetNodeOutputs | core/src/workflow/context.rs:40-42 | the same effect as `set_outputs` |
| Context.ExecutionContext.GetOutputs | core/src/workflow/context.rs:44-46 | the map last stored under the id, None when none was |
| Context.ExecutionContext.GetNodeOutputs | core/src/workflow/context.rs:48-50 | the same answer as `get_outputs` |
| Context.ExecutionContext.GetFinalOutputs | core/src/workflow/context.rs:52-61 | the result is the fold of the stored maps in a visit order that lists every node with outputs exactly once, each later map overriding the earlier on a shared key; hence its keys are the union of every stored map's keys and each value is one some node stored |
| Context.MergeAllLookup | core/src/workflow/context.rs:52-61 | a key is in the fold exactly when some visited node stored it, and its value is the one stored by the last such node in the visit order |
| Context.ExecutionContext.Merge | core/src/workflow/context.rs:56-58 | folding one more node's map gives the previous result overridden by that node's map, and keeps every value traceable to a node |
| Serialization.FindNode | core/src/workflow/serialization.rs:45-47 | the first node carrying the id, None exactly when no node carries it |
| Serialization.FoundIffDeclared | core/src/workflow/serialization.rs:46 | a lookup succeeds exactly for a declared id |
| JsonValues.Get | core/src/workflow/executor.rs:151-154 | a field of an object, None for a missing key or a value that is not an object |
| Connections.ConnectionGraph.constructor | core/src/parameter/connection.rs:15 | no connections and no recorded sources |
| Connections.ConnectionGraph.Connect | core/src/parameter/connection.rs:16-21 | appends the connection and records its source for its target port, other ports untouched |
| Connections.ConnectionGraph.GetSource | core/src/parameter/connection.rs:22-24 | Some exactly when a connection enters the port, and then the source of the last such connection |
| Connections.Rewire | core/src/parameter/connection.rs:16-24 | two connects into one port keep both connections and the later source wins |
| LastWins.FoldLookup | core/src/parameter/dynamic_port.rs:18-21 | a key is in the map built by successive inserts exactly when it was inserted, and holds its last value |
| LastWins.FoldAppend | core/src/parameter/dynamic_port.rs:18-19 | inserting one more entry into the map built so far is the same as building from the longer list |
| Ports.DynamicPorts.constructor | core/src/parameter/dynamic_port.rs:17 | no input and no output ports |
| Ports.DynamicPorts.AddInput | core/src/parameter/dynamic_port.rs:18 | stores the port under its id among the inputs, replacing a same-id port; outputs untouched |
| Ports.DynamicPorts.AddOutput | core/src/parameter/dynamic_port.rs:19 | stores the port under its id among the outputs, replacing a same-id port; inputs untouched |
| Ports.DynamicPorts.GetInput | core/src/parameter/dynamic_port.rs:20 | the last input port added with the id, None when none was |
| Ports.DynamicPorts.GetOutput | core/src/parameter/dynamic_port.rs:21 | the last output port added with the id, None when none was |
| Ports.ReplacePort | core/src/parameter/dynamic_port.rs:18-21 | a second input with the same id replaces the first, and the output namespace stays empty |
| Nodes.TextInputNode.constructor | core/src/workflow/nodes/input.rs:10-18 | stores the text; one output port "text" of type Text, not multiple; no inputs |
| Nodes.TextInputNode.Execute | core/src/workflow/nodes/input.rs:19 | returns the stored text |
| Nodes.InputEcho | core/src/workflow/nodes/input.rs:19 | `execute` returns the stored text unchanged |
| Nodes.LLMNode.constructor | core/src/workflow/nodes/llm.rs:11-27 | stores the model id; one input "prompt" and one output "response", both Text and single |
| Nodes.LLMNode.Execute | core/src/workflow/nodes/llm.rs:28-30 | "[模型", the model id, "响应] 你输入了: " and the prompt, in that order |
| Nodes.ReplyDeterminesPrompt | core/src/workflow/nodes/llm.rs:28-30 | the reply ignores the context and determines the prompt |
| Nodes.TextOutputNode.constructor | core/src/workflow/nodes/output.rs:16-27 | one input "text" of type Text, no outputs, no result |
| Nodes.TextOutputNode.Default | core/src/workflow/nodes/output.rs:9-13 | the same node as `new` |
| Nodes.TextOutputNode.Execute | core/src/workflow/nodes/output.rs:28-31 | the result becomes the input |
| Nodes.LastInputWins | core/src/workflow/nodes/output.rs:28-31 | after two calls the result is the second input |
| Manager.Successes | python_runtime/src/manager.rs:194-197 | the number of successful spawns among the first n attempts, at most n |
| Manager.Acquire | python_runtime/src/manager.rs:110-141 | after dropping stopped workers: Ok exactly when a free worker exists or there is room and the first spawn attempt succeeds; the handed-out worker is unavailable and stamped now and the others of the cleaned pool keep their places; a failure leaves the cleaned pool and the counter, with `NoAvailableProcess` when full and the spawn error otherwise |
| Manager.Fresh | python_runtime/src/manager.rs:200-209 | spawned workers carry consecutive ids, are available and stamped now |
| Manager.SelectMembers | python_runtime/src/manager.rs:168-172 | a worker survives the filter exactly when it was in the pool and its id is (or is not) in the set |
| Manager.SelectAscending | python_runtime/src/manager.rs:168-175 | filtering keeps the ids increasing along the pool |
| Manager.DropTwice | python_runtime/src/manager.rs:194-197 | removing two id sets one after the other removes their union |
| Manager.RemoveAt | python_runtime/src/manager.rs:152-155 | `position` then `remove` takes out exactly the worker with that id |
| Manager.Position | python_runtime/src/manager.rs:152 | the first index holding the id, None when no worker has it |
| Manager.FirstFree | python_runtime/src/manager.rs:116-121 | the first worker that is available and alive, None when there is none |
| Manager.IdleIdsMembers | python_runtime/src/manager.rs:187-192 | an id is collected exactly when some worker carrying it has been idle more than ten minutes |
| Manager.DropIdle | python_runtime/src/manager.rs:194-197 | dropping the idle ids keeps exactly the workers that are not idle |
| Manager.PythonManager.constructor | python_runtime/src/manager.rs:84-92 | an empty pool, next id 0, the given size, timeout and path |
| Manager.PythonManager.CreateProcess | python_runtime/src/manager.rs:200-209 | `PoolFull` when the pool is full, the spawn error when spawning fails, otherwise one available worker with the next id appended and the counter increased |
| Manager.PythonManager.Start | python_runtime/src/manager.rs:94-101 | attempt k spawns the k-th worker with the next consecutive id; the attempts before the first failure all succeeded and their workers are appended; Ok exactly when all `max_pool_size / 2` succeed; otherwise `PoolFull` when the pool filled up, else the failing attempt's spawn error |
| Manager.PythonManager.Stop | python_runtime/src/manager.rs:103-108 | the pool is empty, the id counter kept |
| Manager.PythonManager.CleanupZombieProcesses | python_runtime/src/manager.rs:163-176 | keeps exactly the live workers, in their order |
| Manager.PythonManager.FindAvailable | python_runtime/src/manager.rs:114-121 | the first available live worker |
| Manager.PythonManager.GetProcess | python_runtime/src/manager.rs:110-141 | the result, the pool and the next id are those of `Acquire` |
| Manager.PythonManager.CheckOut | python_runtime/src/manager.rs:114-140 | the part of `get_process` after the cleanup, with the same three outcomes |
| Manager.PythonManager.ReleaseProcess | python_runtime/src/manager.rs:143-148 | only the worker with the id becomes available and is stamped; an unknown id changes nothing |
| Manager.PythonManager.RestartProcess | python_runtime/src/manager.rs:150-161 | the worker with the id is taken out, then one fresh worker with a new id is appended unless the spawn or the size check fails |
| Manager.PythonManager.CollectIdle | python_runtime/src/manager.rs:186-192 | the ids of the workers idle more than ten minutes, in pool order |
| Manager.PythonManager.HealthCheck | python_runtime/src/manager.rs:178-198 | a worker of the old pool stays exactly when it is alive and not idle; the kept workers are followed by one fresh worker per idle worker whose own spawn attempt succeeded, the counter growing by that number |
| Manager.PythonManager.RestartAll | python_runtime/src/manager.rs:194-197 | restarting each collected id removes exactly those workers and appends one fresh worker per successful attempt, the k-th restart using the k-th attempt |
| Manager.PythonManager.RestartOne | python_runtime/src/manager.rs:196 | one step of that loop |
| Manager.RestartStep | python_runtime/src/manager.rs:195-196 | the next idle id is still in the pool when its turn comes |
| Manager.RestartCounted | python_runtime/src/manager.rs:194-197 | the k-th restart appends a fresh worker exactly when the k-th spawn attempt succeeds, keeping the counter at the number of successful attempts |
| ScriptExecutor.Outcome | python_runtime/src/executor.rs:100-138 | a result releases the worker and returns its outputs; an error field or an empty response releases it with `ExecutionError`; a read failure restarts it with `IoError`; a failed write, an unparsable line or an unparsable result leaks it with the error |
| ScriptExecutor.Request | python_runtime/src/executor.rs:71-86 | an object with exactly the fields jsonrpc, method, params and id: method "execute_python" and the given id |
| ScriptExecutor.ReadResponse | python_runtime/src/executor.rs:108-109 | a response line is read into its result and error message only when it has that shape |
| ScriptExecutor.AnswersReadBack | python_runtime/src/executor.rs:108-131 | the worker's success answer is read back as Ok of its outputs and its error answer as `ExecutionError` of its message, both releasing the worker |
| ScriptExecutor.RequestIsRun | python_runtime/src/executor.rs:71-86 | the request a call writes is one the worker runs, with this code and these inputs |
| ScriptExecutor.PathInputs | python_runtime/src/executor.rs:149-152 | every path becomes a JSON string under the same name |
| ScriptExecutor.PythonExecutor.constructor | python_runtime/src/executor.rs:41-46 | an executor over a new, empty pool |
| ScriptExecutor.PythonExecutor.Start | python_runtime/src/executor.rs:48-56 | a poisoned lock fails with `ExecutionError("锁中毒")` and leaves the pool; otherwise the pool's `start`, attempt by attempt, its error wrapped as `ManagerError` |
| ScriptExecutor.PythonExecutor.Stop | python_runtime/src/executor.rs:58-62 | empties the pool unless the lock is poisoned |
| ScriptExecutor.PythonExecutor.Execute | python_runtime/src/executor.rs:65-139 | a poisoned lock fails and changes nothing; otherwise the worker is acquired as `get_process` does (`Acquire`), and its error is returned with the pool it leaves; with a worker, the request sent carries "2.0", "execute_python", the code, the inputs and the clock cut to 64 bits, the result is the exchange's outcome, and the pool is per outcome: the worker released (available, stamped now) with no other change, restarted (removed, plus one fresh worker when the second spawn attempt succeeds), or left checked out |
| ScriptExecutor.PythonExecutor.Settle | python_runtime/src/executor.rs:112-137 | a release makes only that worker available and stamped now; a restart takes it out and appends a fresh worker exactly when the second spawn attempt succeeds; a leak changes nothing |
| ScriptExecutor.PythonExecutor.ExecuteWithPaths | python_runtime/src/executor.rs:142-165 | sends the paths as strings and wraps successful outputs with success true and no error; errors pass through; a poisoned lock and a failed acquisition give the same error and pool as `execute`, and each release, restart or leak leaves the same pool and next id as `execute` does |
| ScriptExecutor.RoundTrip | python_runtime/src/executor.rs:71-126 | a request sent to a runtime is run there and its answer is read back by the host as Ok of the runtime's `output_` globals, releasing the worker |
| ScriptRuntime.OutputsOf | python_runtime/python/microflow_runtime.py:22-28 | exactly the globals whose name starts with "output_", with their values |
| ScriptRuntime.OutputsOfMerge | python_runtime/python/microflow_runtime.py:13-28 | the outputs of merged globals are the old outputs overridden by the inputs' outputs |
| ScriptRuntime.IdOf | python_runtime/python/microflow_runtime.py:62 | the request's id, null when it has none |
| ScriptRuntime.ResponsesWellFormed | python_runtime/python/microflow_runtime.py:41-63 | both response shapes are JSON-RPC 2.0 responses with exactly one of result and error, and the error carries its code and message |
| ScriptRuntime.LinesBeforeEnd | python_runtime/python/microflow_runtime.py:70-72 | the number of lines read before `readline` returns "" |
| ScriptRuntime.Call | python_runtime/python/microflow_runtime.py:35-37 | the code and the inputs (an empty object by default) of an "execute_python" request whose params hold a code |
| ScriptRuntime.Respond | python_runtime/python/microflow_runtime.py:30-63 | the answer to one line: an exception escapes exactly for a parsed value that is not an object, and the globals change only for a parsed object carrying an "execute_python" call |
| ScriptRuntime.RespondWellFormed | python_runtime/python/microflow_runtime.py:41-63 | every answer of `handle_request` is a well-formed JSON-RPC 2.0 response |
| ScriptRuntime.Reply | python_runtime/python/microflow_runtime.py:73-84 | the printed line: the answer, or for an escaping exception a well-formed -32603 "运行时错误: " response with a null id |
| ScriptRuntime.ReplyWellFormed | python_runtime/python/microflow_runtime.py:73-84 | every printed line is well formed |
| ScriptRuntime.Handler | python_runtime/python/microflow_runtime.py:73 | one step of the loop is `handle_request` on the runtime's interpreter |
| ScriptRuntime.Session | python_runtime/python/microflow_runtime.py:65-84 | one printed line per input line |
| ScriptRuntime.SessionPrefix | python_runtime/python/microflow_runtime.py:68-74 | the session over the first j lines prints the first j lines of the whole session |
| ScriptRuntime.SessionStep | python_runtime/python/microflow_runtime.py:68-84 | line i of a session answers input line i in the globals the earlier lines left |
| ScriptRuntime.SessionAnswers | python_runtime/python/microflow_runtime.py:68-84 | when every answer is well formed, so is every printed line |
| ScriptRuntime.Served | python_runtime/python/microflow_runtime.py:65-84 | each printed line of a session is the reply to `Respond` on its input line in the globals left by the lines before it, and is well formed |
| ScriptRuntime.MicroFlowRuntime.constructor | python_runtime/python/microflow_runtime.py:7-8 | no globals |
| ScriptRuntime.MicroFlowRuntime.Execute | python_runtime/python/microflow_runtime.py:10-28 | inputs merge into the persistent globals, new keys overriding; a raising run fails with "执行错误: " and its message; otherwise the `output_` globals, earlier ones included |
| ScriptRuntime.MicroFlowRuntime.CollectOutputs | python_runtime/python/microflow_runtime.py:22-28 | the `output_` globals |
| ScriptRuntime.MicroFlowRuntime.HandleRequest | python_runtime/python/microflow_runtime.py:30-63 | equals `Respond` on the line and the old globals: -32700 with a null id for unparsable JSON; for a request object, the result with the same id, -32601 "方法不存在: <method>" with the id, or -32603 with the exception text and traceback; every answer well formed |
| ScriptRuntime.MicroFlowRuntime.Dispatch | python_runtime/python/microflow_runtime.py:33-63 | the branch taken for each shape of request object and the response it yields |
| ScriptRuntime.MicroFlowRuntime.RunRequest | python_runtime/python/microflow_runtime.py:35-45 | the "execute_python" branch: run the code, answer with the outputs and the id |
| ScriptRuntime.MicroFlowRuntime.Serve | python_runtime/python/microflow_runtime.py:65-84 | the printed lines and the final globals are the `Session` over the lines before end of input: line i is the reply to request i in the globals the earlier requests left, and every line is well formed |
| DataValues.Equal | core/src/types/data_value.rs:48-62 | equal values have the same variant; equal texts, booleans, binaries and model ids are identical; paths are equal when their components are |
| DataValues.Components | core/src/types/data_value.rs:54 | the components of a path, as `PathBuf`'s `==` compares them, are never empty |
| DataValues.TrailingSeparator | core/src/types/data_value.rs:54 | a trailing separator does not change a nonempty path's equality ("a/b/" equals "a/b") |
| DataValues.RepeatedSeparator | core/src/types/data_value.rs:54 | a doubled separator inside a path does not change its equality ("a//b" equals "a/b") |
| DataValues.CurrentDirectoryPiece | core/src/types/data_value.rs:54 | a "." piece inside a path does not change its equality ("a/./b" equals "a/b") |
| DataValues.LeadingRoot | core/src/types/data_value.rs:54 | a leading root is a component of its own: "/a" differs from "a" |
| DataValues.LeadingCurrentDirectory | core/src/types/data_value.rs:54 | a leading "." is a component of its own: "./a" differs from "a" |
| DataValues.EqualSameVariant | core/src/types/data_value.rs:48-62 | values of different variants are never equal |
| DataValues.EqualSymmetric | core/src/types/data_value.rs:48-62 | equality is symmetric, lists and maps included |
| DataValues.DataTypeOf | core/src/types/data_value.rs:126-144 | scalars map to the type of the same name; a list takes its first element's type, Number when empty; a dict is Dict("key", Number) |
| DataValues.DataTypeOfDepth | core/src/types/data_value.rs:133-140 | a list's type is as deeply nested as its chain of first elements |
| DataValues.AsText | core/src/types/data_value.rs:155-160 | Some exactly for Text, with its string |
| DataValues.Lower | core/src/types/data_value.rs:172 | lowercasing keeps the length and works character by character |
| DataValues.ConvertTo | core/src/types/data_value.rs:162-203 | a successful conversion has the target type; a type mismatch names the value and the target and happens only for a pair outside the conversion table |
| DataValues.TypeMismatchExactly | core/src/types/data_value.rs:162-201 | `TypeMismatch` (naming value and target) exactly for the pairs outside the conversion table |
| DataValues.ConvertedHasTarget | core/src/types/data_value.rs:162-196 | a successful conversion has the requested type |
| DataValues.ConvertToOwnType | core/src/types/data_value.rs:164-189 | a Number, Text, Boolean, Path or Binary converted to its own type is returned unchanged |
| DataValues.BooleanNumberRoundTrip | core/src/types/data_value.rs:181-183 | Boolean→Number gives 1.0 or 0.0 and converts back to the same Boolean |
| DataValues.TextToBoolean | core/src/types/data_value.rs:172-179 | true for "true", "yes", "1" and false for "false", "no", "0" in any case; `ConversionError` naming the text otherwise |
| DataValues.BooleanTextRoundTrip | core/src/types/data_value.rs:184 | Boolean→Text gives "true"/"false", which converts back to the same Boolean |
| DataValues.BinaryTextRoundTrip | core/src/types/data_value.rs:190-196 | Binary→Text is base64 encoding and Text→Binary gives the original bytes back |
| DataValues.TextBinaryRoundTrip | core/src/types/data_value.rs:193-196 | text that decodes converts back to the same text: only canonical base64 is accepted |
| Base64.Encode | core/src/types/data_value.rs:191 | the encoding's length is a multiple of 4 and empty exactly for no bytes |
| Base64.Decode | core/src/types/data_value.rs:193-196 | a decoded result is empty exactly for the empty string |
| Base64.DecodeEncode | core/src/types/data_value.rs:190-196 | decoding undoes encoding |
| Base64.EncodeDecode | core/src/types/data_value.rs:193-196 | a string decodes only when it is the encoding of what it decodes to |
| Base64.JoinSplit | core/src/types/data_value.rs:191 | three bytes split into four 6-bit values and joined again are the same bytes |
| Base64.SplitJoin | core/src/types/data_value.rs:193-194 | four 6-bit values joined and split again are the same values |
| DataTypes.Display | core/src/types/data_type.rs:16-29 | scalar types print their own name; List and Dict print their parts around their inner display |
| DataTypes.DisplayInjective | core/src/types/data_type.rs:16-29 | the display identifies the type when no Dict key contains ',', '(' or ')' |
| DataTypes.DisplayAmbiguousWithPunctuatedKeys | core/src/types/data_type.rs:25 | without that restriction two different types can print the same |
| LoraLoader.LeU32 | core/src/model/lora_loader.rs:40 | the little-endian u32 of four bytes: below 2^32, low byte first |
| LoraLoader.LeBytes | core/src/model/lora_loader.rs:40 | four bytes (the inverse of `LeU32`, see the two round trips below) |
| LoraLoader.LeValueOfBytes | core/src/model/lora_loader.rs:40 | reading back a value's little-endian bytes gives the value |
| LoraLoader.LeBytesOfValue | core/src/model/lora_loader.rs:52-53 | a value read from four bytes has those bytes as its little-endian bytes |
| LoraLoader.MagicIsGguf | core/src/model/lora_loader.rs:39-43 | the magic check accepts exactly the bytes "GGUF" |
| LoraLoader.Validate | core/src/model/lora_loader.rs:30-66 | `Io` when reading fails; `CorruptedFile` exactly for fewer than 16 bytes; then `InvalidGguf` for a wrong magic, then `VersionIncompatible` for a version below 3.0; otherwise the tensor count of bytes 8-11 and the estimate of the file size |
| LoraLoader.HeaderOf | core/src/model/lora_loader.rs:32-33 | the read leaves at most the first 1024 bytes of the file |
| LoraLoader.OnlyHeaderExamined | core/src/model/lora_loader.rs:32-33 | two files that agree on their first 1024 bytes and size validate alike |
| PythonLibrary.LeadingSpaceSpec | core/src/python_library/mod.rs:54 | the leading white space is counted up to the first other character |
| PythonLibrary.TrailingSpaceSpec | core/src/python_library/mod.rs:54 | the trailing white space is counted back to the last other character |
| PythonLibrary.TrimSpec | core/src/python_library/mod.rs:54 | `trim` removes white space on both sides and only that |
| PythonLibrary.LinesUnbroken | core/src/python_library/mod.rs:53 | no line contains a line break |
| PythonLibrary.LinesRoundTrip | core/src/python_library/mod.rs:53 | for text without '\r' the lines joined with '\n' give the text back, terminated |
| PythonLibrary.FindMetaFirst | core/src/python_library/mod.rs:53-56 | the search returns the remainder of the first tagged line, and nothing when no line is tagged |
| PythonLibrary.FirstLines | core/src/python_library/mod.rs:53 | the first 30 lines, or all when there are fewer |
| PythonLibrary.ParseMeta | core/src/python_library/mod.rs:52-57 | the text after "# @<key> " on the first such trimmed line among the first 30, None when there is none |
| PythonLibrary.Slashes | core/src/python_library/mod.rs:40 | every '\\' becomes '/' and nothing else changes |
| PythonLibrary.ParseScript | core/src/python_library/mod.rs:38-50 | None exactly without content, relative path or stem; otherwise the metadata name or the stem, the description or "", the slashed path and the parent name or "" |
| PythonLibrary.Parsed | core/src/python_library/mod.rs:27-33 | the walk's ".py" scripts that parse, each keyed by its own relative path |
| PythonLibrary.ScanKeyed | core/src/python_library/mod.rs:32 | inserting the parsed scripts keeps every script under its own path |
| PythonLibrary.Library.constructor | core/src/python_library/mod.rs:19-21 | no scripts |
| PythonLibrary.Library.Scan | core/src/python_library/mod.rs:23-36 | the table is emptied, then refilled from the walk (a later script replacing an earlier one with the same path); a missing root is created and leaves it empty; failing to create it is an error |
| PythonLibrary.Library.GetByCategory | core/src/python_library/mod.rs:59-63 | every script exactly once, under its own category; no category is empty |

## Left out

- Floating point: `Number(f64)` is kept as its 64 bits; f64 `to_string` and `str::parse::<f64>` are parameters of `ConvertTo`, and `as_number` is not modelled. `Position` x/y are kept as bits.
- The f32 version of a LoRA header is kept as its bits, with `version < 3.0` decided on them; `estimate_vram`'s `* 1.2` is a parameter of `Validate`.
- File access: `File::open`, `read` and `metadata` in `validate` become the bytes read and the size (or their failure); `scan`'s directory walk and `read_to_string` become a list of walk entries.
- `to_string_lossy` on paths: paths are strings already.
- Path components follow Unix paths only: no Windows prefixes or backslash separators, and a path's bytes are its characters.
- Processes and pipes: `PythonProcess::new`, `is_alive` and `kill` are not modelled; one `Host` value per call says which worker ids are alive, the outcome of each successive spawn attempt of the call (`Attempt(k)`) and the time; `get_process` reads attempt 0 only when it has to spawn, the restart in `execute` always reads attempt 1, and a kill's result is ignored as in the source.
- The stdin/stdout exchange in `execute` is an `Exchange` value: a write failure, a read failure, or the line read; `JsonRpcResponse` is not defined among the sources, so `ReadResponse` assumes an object with optional `result` and `error.message`.
- `serde_json::to_string` of the request never fails in the model, and the request id is the nanosecond clock passed in, cut to 64 bits.
- `Timeout` and `MemoryLimitExceeded` are never produced by the source and are not modelled.
- Python itself: `exec`, `json.loads`, `json.dumps`, `str()` and the texts of the exceptions are fields of an `Interpreter` parameter; values are JSON values, so globals that are not JSON and a failing `json.dumps` are not modelled. `dict.update` with a list of pairs is treated as an error like any other non-object.
- Concurrency: the `Arc<Mutex<..>>` around the worker pool is a `poisoned` flag; the context's `vram_pool` field and `get_model` are not part of this model.
- `HashMap` iteration order is left open: the queue order of the sort, the visit order of `get_final_outputs` (the final outputs are the fold over some order listing each node once, so which value wins on a key collision is left open) and the order inside a category of `get_by_category` are stated for every order.
- `execute_output_node`'s `println!` and `run_simple_workflow` are console output only.
- Executor.ExecuteWorkflow: runs on the corrected `TopologicalSort` (see Findings), so it differs from the source whenever the emitted count and the declared count disagree. The source's behaviour is `Executor.ExecuteWorkflowAsWritten`. Three cases: (a) nodes [A] and edge A→X: the source answers `CycleDetected` on an acyclic graph, while the model runs A and then fails with `NodeNotFound("X")`; (b) node A of type input and edge Y→Z: the source answers Ok, while the model answers `CycleDetected` although the graph is acyclic; (c) node A and edges X→Y, Y→X: the source answers Ok over A alone, while the model answers `CycleDetected`. The corrected rule thus also rejects acyclic workflows with an edge whose source is neither declared nor the target of an edge.
- Vram.VramPool.Insert: at capacity 0 the source runs `lru.insert` (core/src/vram/pool.rs:146) and then panics in `find_oldest_slot().unwrap()` (pool.rs:149-150, 195-200); the model returns `Err(NoSlotToReuse)` instead, with the cache insert done.
- JSON numbers are integers only (`JInt`): float inputs and outputs of scripts, such as `json.loads("1.5")`, cannot be represented.
- Executor.ExecuteLlmNode: `DataValue`'s `to_string` is a parameter, since its `Debug` format for lists and dicts is library behaviour; with the empty inputs of `collect_inputs` it is never called.
- `MainState::transition` is modelled as the function `StateTransition` returning the new state; the context's `Transition` is the in-place update.
- `Instant` is a logical clock that increases with every stamp.
- `to_json`/`from_json`, the `Hash` impl and `Display` of `DataValue`, `lora_switch`, the FFI layer and the UI are not part of this model.

## Findings

| source | as written | input that shows it | evidently intended | confidence | as-written member | corrected member |
|---|---|---|---|---|---|---|
| core/src/vram/pool.rs:163-165 | the public `evict` removes the least recently used model from the cache but leaves it in its slot | a pool of two holding model1 and model2, then `evict()`: usage 1 but two occupied slots, where core/src/vram/test_pool.rs:157 expects one | eviction also frees the model's slot, as `insert` does at lines 139-142 | not executed | VramScenarios.EvictLeavesSlotOccupied | VramScenarios.EvictFreesSlot |
| core/src/workflow/executor.rs:129 | the emitted count is compared with the number of declared nodes, while the queue also emits edge targets no node declares | nodes A, B; edges A→X, B→B: the sort emits A and X, two nodes, and answers Ok(["A", "X"]) although B→B is a cycle | a cycle is always reported as `CycleDetected`: compare with every node the in-degree table tracks | not executed | Executor.MaskedCycleAsWritten | Executor.MaskedCycleCorrected |
| core/src/workflow/executor.rs:51-59 | `execute_workflow` trusts the sort's count check, so a cycle hidden by an undeclared edge target is run | nodes A (input), B (output); edges A→X, B→B: the sort answers Ok(["A", "X"]), A runs, and the run fails with `NodeNotFound("X")` although B→B is a cycle | `CycleDetected` before any node runs | not executed | Executor.MaskedCycleRunAsWritten | Executor.MaskedCycleRunCorrected |
