/** The node lifecycle state machine (core/src/engine/state_machine.rs): a closed
    transition table over main states with an embedded running sub-state, and a context
    that records the history of a node's states and how often each transition was taken. */
module StateMachine {
  import opened Wrappers
  import DataValues

  datatype NodeError = NodeError(message: string, code: nat, details: Option<string>)

  /** `backoff` is a `Duration`, kept as a number of nanoseconds. */
  datatype RecoveryAction =
    | ImmediateFail
    | Retry(maxAttempts: nat, backoff: nat)
    | Fallback(value: DataValues.DataValue)
    | Skip

  datatype ErrorInfo = ErrorInfo(
    error: NodeError,
    recoverable: bool,
    retryCount: nat,
    suggestedAction: RecoveryAction)

  /** `total == None` stands for an unbounded loop. */
  datatype RunningSubState =
    | Normal
    | AwaitingInput
    | Iterating(current: nat, total: Option<nat>)
    | Branching(condition: bool, selectedBranch: string)
    | Concurrent(activeTasks: nat)

  datatype MainState =
    | Idle
    | Pending
    | Running(sub: RunningSubState)
    | Completed
    | Error(info: ErrorInfo)
    | Cancelled

  datatype StateError =
    | InvalidTransition(message: string)
    | RecoveryFailed(message: string)
    | StateAlreadySet(message: string)

  /** `MainState::can_transition_to`. */
  predicate CanTransition(from: MainState, to: MainState)
    ensures CanTransition(from, to) ==> !to.Idle? && !from.Completed? && !from.Cancelled?
    ensures CanTransition(from, to) && to.Pending? ==> from.Idle?
  {
    match (from, to)
    case (Idle, Pending) => true
    case (Idle, _) => false
    case (Pending, Running(_)) => true
    case (Pending, Error(_)) => true
    case (Pending, Cancelled) => true
    case (Pending, _) => false
    case (Running(_), Running(_)) => true
    case (Running(_), Completed) => true
    case (Running(_), Error(_)) => true
    case (Running(_), Cancelled) => true
    case (Running(_), _) => false
    case (Completed, _) => false
    case (Error(info), Running(_)) => info.recoverable
    case (Error(_), _) => false
    case (Cancelled, _) => false
  }

  /** `MainState::as_str`, the label used in logs and error messages. */
  function AsStr(s: MainState): (name: string)
    ensures "Running::" <= name <==> s.Running?
  {
    match s
    case Idle => "Idle"
    case Pending => "Pending"
    case Running(sub) =>
      (match sub
       case Normal => "Running::Normal"
       case AwaitingInput => "Running::AwaitingInput"
       case Iterating(_, _) => "Running::Iterating"
       case Branching(_, _) => "Running::Branching"
       case Concurrent(_) => "Running::Concurrent")
    case Completed => assert "Completed"[0] != 'R'; "Completed"
    case Error(_) => "Error"
    case Cancelled => assert "Cancelled"[0] != 'R'; "Cancelled"
  }

  /** `MainState::transition`: the new state when the move is allowed, otherwise an
      `InvalidTransition` naming both states (the caller's state is then left as it was). */
  function StateTransition(s: MainState, target: MainState): (r: Result<MainState, StateError>)
    ensures r.Ok? <==> CanTransition(s, target)
    ensures r.Ok? ==> r.value == target
    ensures r.Err? ==>
      r.error == InvalidTransition("Cannot transition from " + AsStr(s) + " to " + AsStr(target))
  {
    if !CanTransition(s, target) then
      Err(InvalidTransition("Cannot transition from " + AsStr(s) + " to " + AsStr(target)))
    else
      Ok(target)
  }

  // ---------------------------------------------------------------------------------------
  // The transition table restated by main state only, as the documentation of the engine
  // describes it: a reference the match above is checked against.

  datatype Kind = KIdle | KPending | KRunning | KCompleted | KError | KCancelled

  function KindOf(s: MainState): Kind {
    match s
    case Idle => KIdle
    case Pending => KPending
    case Running(_) => KRunning
    case Completed => KCompleted
    case Error(_) => KError
    case Cancelled => KCancelled
  }

  /** The kinds each kind may move to; an error state may resume running only when its
      error is recoverable. */
  function AllowedTargets(k: Kind, recoverable: bool): set<Kind> {
    match k
    case KIdle => {KPending}
    case KPending => {KRunning, KError, KCancelled}
    case KRunning => {KRunning, KCompleted, KError, KCancelled}
    case KCompleted => {}
    case KError => if recoverable then {KRunning} else {}
    case KCancelled => {}
  }

  function Recoverable(s: MainState): bool {
    s.Error? && s.info.recoverable
  }

  /** The transition check depends only on the kinds of the two states (and on
      recoverability of an error), and follows the table above in both directions. */
  lemma CanTransitionFollowsTable(from: MainState, to: MainState)
    ensures CanTransition(from, to) <==> KindOf(to) in AllowedTargets(KindOf(from), Recoverable(from))
  {
  }

  /** Completed and Cancelled are terminal, and nothing ever moves back to Idle; Pending is
      entered from Idle only. */
  lemma TerminalAndInitialStates(from: MainState, to: MainState)
    ensures from.Completed? || from.Cancelled? ==> !CanTransition(from, to)
    ensures to.Idle? ==> !CanTransition(from, to)
    ensures to.Pending? ==> (CanTransition(from, to) <==> from.Idle?)
  {
  }

  /** `as_str` tells the kinds, and the kinds of running sub-states, apart. */
  lemma AsStrDistinguishesKinds(a: MainState, b: MainState)
    requires AsStr(a) == AsStr(b)
    ensures KindOf(a) == KindOf(b)
    ensures a.Running? ==> SubKind(a.sub) == SubKind(b.sub)
  {
  }

  function SubKind(s: RunningSubState): nat {
    match s
    case Normal => 0
    case AwaitingInput => 1
    case Iterating(_, _) => 2
    case Branching(_, _) => 3
    case Concurrent(_) => 4
  }

  // ---------------------------------------------------------------------------------------
  // Histories.

  /** Every consecutive pair of the trace is an allowed transition. */
  predicate ValidTrace(t: seq<MainState>) {
    forall i | 0 <= i < |t| - 1 :: CanTransition(t[i], t[i + 1])
  }

  /** How many times `a` is directly followed by `b` in the trace. */
  function CountPairs(t: seq<MainState>, a: MainState, b: MainState): nat
    decreases |t|
  {
    if |t| < 2 then 0
    else CountPairs(t[..|t| - 1], a, b) + (if t[|t| - 2] == a && t[|t| - 1] == b then 1 else 0)
  }

  /** `a` is directly followed by `b` at position `i`. */
  predicate PairAt(t: seq<MainState>, i: int, a: MainState, b: MainState) {
    0 <= i < |t| - 1 && t[i] == a && t[i + 1] == b
  }

  /** The positions at which `a` is directly followed by `b`. */
  function PairPositions(t: seq<MainState>, a: MainState, b: MainState): set<nat> {
    set i: nat | i < |t| && PairAt(t, i, a, b)
  }

  /** The positions in a trace are those of the trace without its last state, plus the
      last position when the pair occurs there. */
  lemma PairPositionsStep(t: seq<MainState>, a: MainState, b: MainState)
    requires |t| >= 2
    ensures var n := |t|;
      PairPositions(t, a, b)
        == PairPositions(t[..n - 1], a, b) + (if PairAt(t, n - 2, a, b) then {n - 2} else {})
    ensures |t| - 2 !in PairPositions(t[..|t| - 1], a, b)
  {
    var n := |t|;
    var u := t[..n - 1];
    var extra: set<nat> := if PairAt(t, n - 2, a, b) then {n - 2} else {};
    forall i: nat
      ensures i in PairPositions(t, a, b) <==> i in PairPositions(u, a, b) + extra
    {
      if i < n - 2 {
        assert PairAt(t, i, a, b) <==> PairAt(u, i, a, b);
      }
    }
  }

  /** The counter is the number of positions at which the pair occurs. */
  lemma {:induction false} CountPairsIsPositions(t: seq<MainState>, a: MainState, b: MainState)
    ensures CountPairs(t, a, b) == |PairPositions(t, a, b)|
    decreases |t|
  {
    if |t| < 2 {
      assert PairPositions(t, a, b) == {};
    } else {
      var u := t[..|t| - 1];
      CountPairsIsPositions(u, a, b);
      PairPositionsStep(t, a, b);
    }
  }

  /** A pair that was counted occurs somewhere. */
  lemma {:induction false} CountPairsWitness(t: seq<MainState>, a: MainState, b: MainState) returns (i: nat)
    requires CountPairs(t, a, b) > 0
    ensures PairAt(t, i, a, b)
    decreases |t|
  {
    var n := |t|;
    if PairAt(t, n - 2, a, b) {
      i := n - 2;
    } else {
      var u := t[..n - 1];
      i := CountPairsWitness(u, a, b);
      assert PairAt(u, i, a, b);
    }
  }

  lemma CountPairsAppend(t: seq<MainState>, x: MainState, a: MainState, b: MainState)
    requires |t| > 0
    ensures CountPairs(t + [x], a, b) == CountPairs(t, a, b) + (if t[|t| - 1] == a && x == b then 1 else 0)
  {
    assert (t + [x])[..|t|] == t;
  }

  /** The counters are exactly the pair counts of the history `h`, with an entry for every
      pair that occurred and for no other. */
  predicate CountsMatch(h: seq<MainState>, counts: map<(MainState, MainState), nat>) {
    && (forall p | p in counts :: counts[p] == CountPairs(h, p.0, p.1) > 0)
    && (forall i | 0 <= i < |h| - 1 :: (h[i], h[i + 1]) in counts)
  }

  /** Recording one more allowed transition keeps the history valid and the counters
      matching it. */
  lemma {:induction false} RecordTransition(h: seq<MainState>, counts: map<(MainState, MainState), nat>, next: MainState)
    requires |h| > 0 && ValidTrace(h) && CountsMatch(h, counts)
    requires CanTransition(h[|h| - 1], next)
    ensures ValidTrace(h + [next])
    ensures var key := (h[|h| - 1], next);
      CountsMatch(h + [next], counts[key := (if key in counts then counts[key] else 0) + 1])
  {
    var key := (h[|h| - 1], next);
    var counts' := counts[key := (if key in counts then counts[key] else 0) + 1];
    var h' := h + [next];
    forall p | p in counts'
      ensures counts'[p] == CountPairs(h', p.0, p.1) > 0
    {
      CountPairsAppend(h, next, p.0, p.1);
      if p == key && CountPairs(h, p.0, p.1) > 0 {
        var i := CountPairsWitness(h, p.0, p.1);
        assert (h[i], h[i + 1]) in counts;
        assert key in counts;
      }
    }
    forall i | 0 <= i < |h'| - 1
      ensures (h'[i], h'[i + 1]) in counts'
    {
      if i < |h| - 1 {
        assert h'[i] == h[i] && h'[i + 1] == h[i + 1];
      }
    }
  }

  /** In a valid history Idle can only come first and Pending only second, right after
      Idle; a terminal state can only come last. */
  lemma ValidTraceShape(t: seq<MainState>)
    requires ValidTrace(t)
    ensures forall i | 1 <= i < |t| :: !t[i].Idle?
    ensures forall i | 1 <= i < |t| :: t[i].Pending? ==> i == 1 && t[0].Idle?
    ensures forall i | 0 <= i < |t| - 1 :: !t[i].Completed? && !t[i].Cancelled?
  {
    forall i | 0 <= i < |t| - 1
      ensures !t[i].Completed? && !t[i].Cancelled?
    {
      TerminalAndInitialStates(t[i], t[i + 1]);
    }
    forall i | 1 <= i < |t|
      ensures !t[i].Idle? && (t[i].Pending? ==> i == 1 && t[0].Idle?)
    {
      TerminalAndInitialStates(t[i - 1], t[i]);
      if t[i].Pending? && i > 1 {
        TerminalAndInitialStates(t[i - 2], t[i - 1]);
      }
    }
  }

  /** `StateMachineContext`: the current state, the states left so far, and a counter per
      (from, to) pair of transitions taken. */
  class StateMachineContext {
    var currentState: MainState
    var previousStates: seq<MainState>
    var transitionCount: map<(MainState, MainState), nat>

    /** The states visited so far, oldest first, ending with the current one. */
    function History(): seq<MainState>
      reads this
    {
      previousStates + [currentState]
    }

    /** The history is a chain of allowed transitions, and the counters are exactly the
        pair counts of the history, with an entry for every pair that occurred and for no
        other. */
    ghost predicate Valid()
      reads this
    {
      ValidTrace(History()) && CountsMatch(History(), transitionCount)
    }

    constructor(initial: MainState)
      ensures currentState == initial
      ensures previousStates == []
      ensures transitionCount == map[]
      ensures Valid()
    {
      currentState := initial;
      previousStates := [];
      transitionCount := map[];
    }

    /** `StateMachineContext::transition`: on success the old state is appended to the
        history and its (old, new) counter grows by one; on failure nothing changes. */
    method Transition(newState: MainState) returns (r: Result<(), StateError>)
      requires Valid()
      modifies this
      ensures Valid()
      ensures r.Ok? <==> CanTransition(old(currentState), newState)
      ensures r.Err? ==> r.error == StateTransition(old(currentState), newState).error
      ensures r.Ok? ==>
        && currentState == newState
        && previousStates == old(previousStates) + [old(currentState)]
        && var key := (old(currentState), newState);
           transitionCount == old(transitionCount)[key := (if key in old(transitionCount) then old(transitionCount)[key] else 0) + 1]
      ensures r.Err? ==> unchanged(this)
    {
      var next := StateTransition(currentState, newState);
      if next.Err? {
        return Err(next.error);
      }
      ghost var oldHistory := History();
      RecordTransition(oldHistory, transitionCount, newState);
      var key := (currentState, newState);
      var count := if key in transitionCount then transitionCount[key] else 0;
      currentState, previousStates := newState, previousStates + [currentState];
      transitionCount := transitionCount[key := count + 1];
      assert History() == oldHistory + [newState];
      r := Ok(());
    }
  }
}
