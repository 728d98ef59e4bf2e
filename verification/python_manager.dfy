/** The script worker pool (python_runtime/src/manager.rs): a list of worker processes,
    each with an id, an availability flag and the time it was last used, filled up to a
    maximum size and handed out one at a time. The operating-system process is replaced by
    its bookkeeping; what the system reports about it is a `Host` parameter: which workers
    are still running, whether spawning a worker succeeds, and the current time. */
module Manager {
  import opened Wrappers
  import Graphs

  datatype ManagerError =
    | ProcessStartError(message: string)
    | PoolFull
    | NoAvailableProcess
    | ProcessTerminated(id: nat)

  /** A worker process, without its pipes. */
  datatype Worker = Worker(id: nat, lastUsed: nat, available: bool)

  /** What the operating system reports during one call: the ids of the workers whose
      process is still running (`is_alive`), the outcomes of the call's successive spawn
      attempts (an error message, or None when the spawn succeeds; attempts beyond the
      list succeed), and the current time in nanoseconds. */
  datatype Host = Host(alive: set<nat>, spawns: seq<Option<string>>, now: nat) {
    /** The outcome of the `k`-th spawn attempt, counting from 0. */
    function Attempt(k: nat): Option<string> {
      if k < |spawns| then spawns[k] else None
    }

    /** The outcome of the first spawn attempt. */
    const spawn: Option<string> := Attempt(0)

    /** The host as the `k`-th spawn attempt of the call finds it. */
    function Shift(k: nat): (h: Host)
      ensures h.alive == alive && h.now == now
      ensures forall j: nat :: h.Attempt(j) == Attempt(k + j)
    {
      Host(alive, if k <= |spawns| then spawns[k..] else [], now)
    }
  }

  /** How many of the first `n` spawn attempts succeed. */
  function Successes(host: Host, n: nat): (c: nat)
    ensures c <= n
  {
    if n == 0 then 0 else Successes(host, n - 1) + (if host.Attempt(n - 1).None? then 1 else 0)
  }

  /** Ten minutes, in nanoseconds. */
  const IDLE_LIMIT: nat := 600 * 1_000_000_000

  /** `now.duration_since(last_used) > ten_minutes`; the duration saturates at zero when
      `last_used` is later than `now`. */
  predicate Idle(w: Worker, now: nat) {
    now > w.lastUsed + IDLE_LIMIT
  }

  /** Worker ids increase along the list, so no id occurs twice. */
  predicate Ascending(p: seq<Worker>) {
    forall i, j | 0 <= i < j < |p| :: p[i].id < p[j].id
  }

  /** Every id is below `next`. */
  predicate Below(p: seq<Worker>, next: nat) {
    forall i | 0 <= i < |p| :: p[i].id < next
  }

  /** The ids in the list. */
  function Ids(p: seq<Worker>): set<nat> {
    set w | w in p :: w.id
  }

  /** `n` freshly spawned workers with the ids from `from` on, available, used at `now`. */
  function Fresh(from: nat, n: nat, now: nat): (q: seq<Worker>)
    ensures |q| == n && Ascending(q)
    ensures forall i | 0 <= i < n :: q[i] == Worker(from + i, now, true)
  {
    seq(n, i requires 0 <= i < n => Worker(from + i, now, true))
  }

  /** One more spawned worker extends the spawned run. */
  lemma FreshGrow(front: seq<Worker>, from: nat, n: nat, now: nat)
    ensures front + Fresh(from, n, now) + [Worker(from + n, now, true)] == front + Fresh(from, n + 1, now)
  {
    assert Fresh(from, n, now) + [Worker(from + n, now, true)] == Fresh(from, n + 1, now);
  }

  /** The workers whose id is in `ids` (`keep`) or not in it (not `keep`), in their
      order. */
  function Select(p: seq<Worker>, ids: set<nat>, keep: bool): (q: seq<Worker>)
    ensures |q| <= |p|
  {
    if |p| == 0 then []
    else
      var front := Select(p[..|p| - 1], ids, keep);
      var w := p[|p| - 1];
      if (w.id in ids) == keep then front + [w] else front
  }

  /** A worker is selected exactly when it is in the list and its id is (`keep`) or is
      not (not `keep`) among the ids. */
  lemma {:induction false} SelectMembers(p: seq<Worker>, ids: set<nat>, keep: bool)
    ensures forall w :: w in Select(p, ids, keep) <==> w in p && ((w.id in ids) == keep)
  {
    if |p| > 0 {
      SelectMembers(p[..|p| - 1], ids, keep);
      assert p == p[..|p| - 1] + [p[|p| - 1]];
    }
  }

  /** A selection keeps the ids ascending. */
  lemma {:induction false} SelectAscending(p: seq<Worker>, ids: set<nat>, keep: bool)
    requires Ascending(p)
    ensures Ascending(Select(p, ids, keep))
  {
    if |p| > 0 {
      var front := p[..|p| - 1];
      SelectAscending(front, ids, keep);
      SelectMembers(front, ids, keep);
      var q := Select(front, ids, keep);
      forall x | x in q
        ensures x.id < p[|p| - 1].id
      {
        var k :| 0 <= k < |front| && front[k] == x;
      }
    }
  }

  /** Selecting from a concatenation selects from each part. */
  lemma {:induction false} SelectAppend(a: seq<Worker>, b: seq<Worker>, ids: set<nat>, keep: bool)
    ensures Select(a + b, ids, keep) == Select(a, ids, keep) + Select(b, ids, keep)
    decreases |b|
  {
    if |b| > 0 {
      var b' := b[..|b| - 1];
      assert (a + b)[..|a + b| - 1] == a + b';
      assert (a + b)[|a + b| - 1] == b[|b| - 1];
      SelectAppend(a, b', ids, keep);
    } else {
      assert a + b == a;
    }
  }

  /** Dropping nothing that is there changes nothing. */
  lemma {:induction false} DropAbsent(p: seq<Worker>, ids: set<nat>)
    requires forall i | 0 <= i < |p| :: p[i].id !in ids
    ensures Select(p, ids, false) == p
  {
    if |p| > 0 {
      DropAbsent(p[..|p| - 1], ids);
    }
  }

  /** Dropping two sets of ids one after the other drops their union. */
  lemma {:induction false} DropTwice(p: seq<Worker>, a: set<nat>, b: set<nat>)
    ensures Select(Select(p, a, false), b, false) == Select(p, a + b, false)
  {
    if |p| > 0 {
      var front := p[..|p| - 1];
      DropTwice(front, a, b);
      var w := p[|p| - 1];
      if w.id !in a {
        assert Select(p, a, false)[..|Select(p, a, false)| - 1] == Select(front, a, false);
      }
    }
  }

  /** `position` followed by `remove`: in a list without repeated ids, taking out the
      element at the first position of an id drops exactly the workers with that id. */
  lemma {:induction false} RemoveAt(p: seq<Worker>, i: nat)
    requires Ascending(p) && i < |p|
    ensures p[..i] + p[i + 1..] == Select(p, {p[i].id}, false)
    decreases |p|, 1
  {
    if i == |p| - 1 {
      RemoveLast(p);
    } else {
      RemoveBeforeLast(p, i);
    }
  }

  /** Taking out the last worker of an ascending list drops its id. */
  lemma RemoveLast(p: seq<Worker>)
    requires Ascending(p) && |p| > 0
    ensures p[..|p| - 1] == Select(p, {p[|p| - 1].id}, false)
  {
    var front, id := p[..|p| - 1], p[|p| - 1].id;
    assert forall k | 0 <= k < |front| :: front[k].id != id;
    DropAbsent(front, {id});
  }

  /** Taking out a worker before the last one of an ascending list drops its id. */
  lemma {:induction false} RemoveBeforeLast(p: seq<Worker>, i: nat)
    requires Ascending(p) && i < |p| - 1
    ensures p[..i] + p[i + 1..] == Select(p, {p[i].id}, false)
    decreases |p|, 0
  {
    var front, last, id := p[..|p| - 1], p[|p| - 1], p[i].id;
    assert Ascending(front) by {
      assert forall k | 0 <= k < |front| :: front[k] == p[k];
    }
    assert last.id != id && front[i] == p[i];
    assert Select(p, {id}, false) == Select(front, {id}, false) + [last];
    RemoveAt(front, i);
    assert p[..i] + p[i + 1..] == (front[..i] + front[i + 1..]) + [last];
  }

  /** `iter().position(|p| p.id == id)`: the first index holding the id. */
  function Position(p: seq<Worker>, id: nat): (r: Option<nat>)
    ensures r.None? <==> forall i | 0 <= i < |p| :: p[i].id != id
    ensures r.Some? ==> r.value < |p| && p[r.value].id == id
                        && forall j | 0 <= j < r.value :: p[j].id != id
  {
    if |p| == 0 then None
    else if p[0].id == id then Some(0)
    else
      var r := Position(p[1..], id);
      assert forall j | 1 <= j < |p| :: p[j] == p[1..][j - 1];
      if r.Some? then Some(r.value + 1) else None
  }

  /** The first worker that is available and still running. */
  function FirstFree(p: seq<Worker>, alive: set<nat>): (r: Option<nat>)
    ensures r.None? <==> forall i | 0 <= i < |p| :: !(p[i].available && p[i].id in alive)
    ensures r.Some? ==> r.value < |p| && p[r.value].available && p[r.value].id in alive
                        && forall j | 0 <= j < r.value :: !(p[j].available && p[j].id in alive)
  {
    if |p| == 0 then None
    else if p[0].available && p[0].id in alive then Some(0)
    else
      var r := FirstFree(p[1..], alive);
      assert forall j | 1 <= j < |p| :: p[j] == p[1..][j - 1];
      if r.Some? then Some(r.value + 1) else None
  }

  /** The ids of the workers idle at `now`, in list order. */
  function IdleIds(p: seq<Worker>, now: nat): seq<nat> {
    if |p| == 0 then []
    else
      var front := IdleIds(p[..|p| - 1], now);
      var w := p[|p| - 1];
      if Idle(w, now) then front + [w.id] else front
  }

  /** An id is collected exactly when some idle worker carries it. */
  lemma {:induction false} IdleIdsMembers(p: seq<Worker>, now: nat, x: nat)
    ensures x in IdleIds(p, now) <==> exists w | w in p :: w.id == x && Idle(w, now)
  {
    if |p| > 0 {
      IdleIdsMembers(p[..|p| - 1], now, x);
      assert p == p[..|p| - 1] + [p[|p| - 1]];
    }
  }

  /** In a list without repeated ids, dropping the idle workers' ids keeps exactly the
      workers that are not idle. */
  lemma DropIdle(p: seq<Worker>, now: nat, w: Worker)
    requires Ascending(p)
    ensures var ids := IdleIds(p, now);
      w in Select(p, Graphs.Elems(ids), false) <==> w in p && !Idle(w, now)
  {
    var ids := IdleIds(p, now);
    SelectMembers(p, Graphs.Elems(ids), false);
    IdleIdsMembers(p, now, w.id);
    if w in p && w.id in ids {
      var v :| v in p && v.id == w.id && Idle(v, now);
      var i :| 0 <= i < |p| && p[i] == w;
      var j :| 0 <= j < |p| && p[j] == v;
      assert i == j;
    }
  }

  /** What `get_process` hands out and the pool and next id it leaves: the stopped
      workers are dropped; the first free worker is checked out (unavailable, last used
      now); failing that, a new worker is spawned checked out when there is room and the
      spawn succeeds; otherwise the pool is left as the cleanup made it. */
  function Acquire(pool: seq<Worker>, next: nat, maxPoolSize: nat, host: Host)
    : (a: (Result<nat, ManagerError>, seq<Worker>, nat))
    ensures var p := Select(pool, host.alive, true);
      && (a.0.Ok? <==> FirstFree(p, host.alive).Some? || (|p| < maxPoolSize && host.spawn.None?))
      && (a.0.Err? ==> a.1 == p && a.2 == next)
      && (a.0.Err? && |p| >= maxPoolSize ==> a.0.error == NoAvailableProcess)
      && (a.0.Err? && |p| < maxPoolSize ==> a.0.error == ProcessStartError(host.spawn.value))
      && (a.0.Ok? ==> exists i | 0 <= i < |a.1| :: a.1[i] == Worker(a.0.value, host.now, false))
      && (a.0.Ok? ==> |p| <= |a.1| && forall i | 0 <= i < |p| && p[i].id != a.0.value :: a.1[i] == p[i])
  {
    var p := Select(pool, host.alive, true);
    match FirstFree(p, host.alive)
    case Some(i) =>
      var q := p[i := p[i].(available := false, lastUsed := host.now)];
      assert q[i] == Worker(p[i].id, host.now, false);
      (Ok(p[i].id), q, next)
    case None =>
      if |p| >= maxPoolSize then (Err(NoAvailableProcess), p, next)
      else if host.spawn.Some? then (Err(ProcessStartError(host.spawn.value)), p, next)
      else
        var q := p + [Worker(next, host.now, false)];
        assert q[|p|] == Worker(next, host.now, false);
        (Ok(next), q, next + 1)
  }

  class PythonManager {
    var pool: seq<Worker>
    const maxPoolSize: nat
    /** Kept, never read (`#[allow(dead_code)]`). */
    const timeout: nat
    const pythonPath: string
    var nextProcessId: nat

    /** The pool never exceeds its maximum size; ids increase along the pool and are all
        below the next id to hand out, so none is ever reused. */
    ghost predicate Valid()
      reads this
    {
      |pool| <= maxPoolSize && Ascending(pool) && Below(pool, nextProcessId)
    }

    /** `new`: an empty pool, ids starting from 0. */
    constructor(maxPoolSize: nat, timeout: nat, pythonPath: string)
      ensures Valid()
      ensures pool == [] && nextProcessId == 0
      ensures this.maxPoolSize == maxPoolSize && this.timeout == timeout && this.pythonPath == pythonPath
    {
      pool := [];
      this.maxPoolSize := maxPoolSize;
      this.timeout := timeout;
      this.pythonPath := pythonPath;
      nextProcessId := 0;
    }

    /** `create_process`: a full pool fails with PoolFull; a failed spawn fails with its
        message; otherwise a worker with the next id is appended, available, and the id
        counter moves on. A failure changes nothing. */
    method CreateProcess(host: Host) returns (r: Result<(), ManagerError>)
      requires Valid()
      modifies this
      ensures Valid()
      ensures |old(pool)| >= maxPoolSize ==> r == Err(PoolFull)
      ensures |old(pool)| < maxPoolSize && host.spawn.Some? ==> r == Err(ProcessStartError(host.spawn.value))
      ensures r.Ok? <==> |old(pool)| < maxPoolSize && host.spawn.None?
      ensures r.Ok? ==> pool == old(pool) + [Worker(old(nextProcessId), host.now, true)]
                        && nextProcessId == old(nextProcessId) + 1
      ensures r.Err? ==> pool == old(pool) && nextProcessId == old(nextProcessId)
    {
      if |pool| >= maxPoolSize {
        return Err(PoolFull);
      }
      if host.spawn.Some? {
        return Err(ProcessStartError(host.spawn.value));
      }
      pool := pool + [Worker(nextProcessId, host.now, true)];
      nextProcessId := nextProcessId + 1;
      r := Ok(());
    }

    /** `start`: up to `max_pool_size / 2` spawn attempts, the `k`-th one seeing the
        `k`-th outcome, stopping at the first that fails. The workers spawned before a
        failure stay; the error is that of the failing attempt. */
    method Start(host: Host) returns (r: Result<(), ManagerError>)
      requires Valid()
      modifies this
      ensures Valid() && old(nextProcessId) <= nextProcessId <= old(nextProcessId) + maxPoolSize / 2
      ensures var n := nextProcessId - old(nextProcessId);
        && pool == old(pool) + Fresh(old(nextProcessId), n, host.now)
        && (forall k | 0 <= k < n :: |old(pool)| + k < maxPoolSize && host.Attempt(k).None?)
        && (r.Ok? <==> n == maxPoolSize / 2)
        && (r.Err? && |old(pool)| + n >= maxPoolSize ==> r.error == PoolFull)
        && (r.Err? && |old(pool)| + n < maxPoolSize ==>
              host.Attempt(n).Some? && r.error == ProcessStartError(host.Attempt(n).value))
    {
      var count := maxPoolSize / 2;
      r := Ok(());
      for k := 0 to count
        invariant Valid() && nextProcessId == old(nextProcessId) + k
        invariant pool == old(pool) + Fresh(old(nextProcessId), k, host.now)
        invariant forall j | 0 <= j < k :: |old(pool)| + j < maxPoolSize && host.Attempt(j).None?
        invariant r.Ok?
      {
        r := CreateProcess(host.Shift(k));
        if r.Err? {
          return;
        }
        FreshGrow(old(pool), old(nextProcessId), k, host.now);
      }
    }

    /** `stop`: every worker is killed (the outcome of the kill is ignored) and the pool
        emptied; the id counter is kept. */
    method Stop()
      requires Valid()
      modifies this
      ensures Valid() && pool == [] && nextProcessId == old(nextProcessId)
    {
      pool := [];
    }

    /** `cleanup_zombie_processes`: keeps the workers that are still running, in their
        order. */
    method CleanupZombieProcesses(host: Host)
      requires Valid()
      modifies this
      ensures Valid() && nextProcessId == old(nextProcessId)
      ensures pool == Select(old(pool), host.alive, true)
    {
      var kept: seq<Worker> := [];
      for i := 0 to |pool|
        invariant kept == Select(pool[..i], host.alive, true)
      {
        assert pool[..i + 1][..i] == pool[..i];
        if pool[i].id in host.alive {
          kept := kept + [pool[i]];
        }
      }
      assert pool[..|pool|] == pool;
      SelectAscending(pool, host.alive, true);
      SelectMembers(pool, host.alive, true);
      assert forall i | 0 <= i < |kept| :: kept[i] in pool;
      pool := kept;
    }

    /** The search loop of `get_process`: the index of the first worker that is available
        and still running. */
    method FindAvailable(host: Host) returns (idx: Option<nat>)
      ensures idx == FirstFree(pool, host.alive)
    {
      var i := 0;
      while i < |pool|
        invariant i <= |pool|
        invariant forall j | 0 <= j < i :: !(pool[j].available && pool[j].id in host.alive)
      {
        if pool[i].available && pool[i].id in host.alive {
          return Some(i);
        }
        i := i + 1;
      }
      idx := None;
    }

    /** `get_process`: the worker handed out, the pool and the next id are those of
        `Acquire`. */
    method GetProcess(host: Host) returns (r: Result<nat, ManagerError>)
      requires Valid()
      modifies this
      ensures Valid()
      ensures (r, pool, nextProcessId) == Acquire(old(pool), old(nextProcessId), maxPoolSize, host)
    {
      CleanupZombieProcesses(host);
      ghost var p := pool;
      r := CheckOut(host);
      assert p == Select(old(pool), host.alive, true);
    }

    /** The part of `get_process` after the cleanup. */
    method CheckOut(host: Host) returns (r: Result<nat, ManagerError>)
      requires Valid()
      modifies this
      ensures Valid()
      ensures match FirstFree(old(pool), host.alive)
        case Some(i) =>
          r == Ok(old(pool)[i].id) && nextProcessId == old(nextProcessId)
          && pool == old(pool)[i := old(pool)[i].(available := false, lastUsed := host.now)]
        case None =>
          if |old(pool)| >= maxPoolSize then
            r == Err(NoAvailableProcess) && pool == old(pool) && nextProcessId == old(nextProcessId)
          else if host.spawn.Some? then
            r == Err(ProcessStartError(host.spawn.value)) && pool == old(pool)
            && nextProcessId == old(nextProcessId)
          else r == Ok(old(nextProcessId)) && nextProcessId == old(nextProcessId) + 1
               && pool == old(pool) + [Worker(old(nextProcessId), host.now, false)]
      ensures r.Ok? ==> exists i | 0 <= i < |pool| :: pool[i].id == r.value && !pool[i].available
    {
      var idx := FindAvailable(host);
      if idx.Some? {
        var i := idx.value;
        pool := pool[i := pool[i].(available := false, lastUsed := host.now)];
        return Ok(pool[i].id);
      }
      if |pool| < maxPoolSize {
        var created := CreateProcess(host);
        if created.Err? {
          return Err(created.error);
        }
        var last := |pool| - 1;
        pool := pool[last := pool[last].(available := false)];
        return Ok(pool[last].id);
      }
      r := Err(NoAvailableProcess);
    }

    /** `release_process`: the worker with the id becomes available again, last used now;
        an unknown id changes nothing. */
    method ReleaseProcess(id: nat, now: nat)
      requires Valid()
      modifies this
      ensures Valid() && nextProcessId == old(nextProcessId) && |pool| == |old(pool)|
      ensures forall i | 0 <= i < |pool| ::
        pool[i] == if old(pool)[i].id == id then old(pool)[i].(available := true, lastUsed := now)
                   else old(pool)[i]
    {
      var at := Position(pool, id);
      if at.Some? {
        var i := at.value;
        pool := pool[i := pool[i].(available := true, lastUsed := now)];
      }
    }

    /** `restart_process`: the worker with the id (if any) is killed and taken out, then a
        new worker is spawned as by `create_process`. Taking one out leaves room, so the
        restart of a pooled worker fails only when spawning fails. */
    method RestartProcess(id: nat, host: Host) returns (r: Result<(), ManagerError>)
      requires Valid()
      modifies this
      ensures Valid()
      ensures var p := Select(old(pool), {id}, false);
        && (r.Ok? <==> |p| < maxPoolSize && host.spawn.None?)
        && (r.Ok? ==> pool == p + [Worker(old(nextProcessId), host.now, true)]
                      && nextProcessId == old(nextProcessId) + 1)
        && (r.Err? ==> pool == p && nextProcessId == old(nextProcessId))
      ensures id in Ids(old(pool)) ==> (r.Ok? <==> host.spawn.None?) && id !in Ids(pool)
    {
      var at := Position(pool, id);
      if at.Some? {
        var i := at.value;
        RemoveAt(pool, i);
        pool := pool[..i] + pool[i + 1..];
      } else {
        DropAbsent(pool, {id});
      }
      r := CreateProcess(host);
    }

    /** The loop of `health_check` that collects the ids of the idle workers. */
    method CollectIdle(now: nat) returns (ids: seq<nat>)
      ensures ids == IdleIds(pool, now)
    {
      ids := [];
      for i := 0 to |pool|
        invariant ids == IdleIds(pool[..i], now)
      {
        assert pool[..i + 1][..i] == pool[..i];
        if Idle(pool[i], now) {
          ids := ids + [pool[i].id];
        }
      }
      assert pool[..|pool|] == pool;
    }

    /** `health_check`: the stopped workers are dropped, then every worker idle for more
        than ten minutes is restarted, the `k`-th restart seeing the `k`-th spawn outcome,
        each outcome ignored on its own. Afterwards the workers kept are exactly the
        running, recently used ones, followed by one replacement per restart whose spawn
        succeeded. */
    method HealthCheck(host: Host)
      requires Valid()
      modifies this
      ensures Valid() && old(nextProcessId) <= nextProcessId
      ensures var p := Select(old(pool), host.alive, true);
              var idle := IdleIds(p, host.now);
        && pool == Select(p, Graphs.Elems(idle), false)
                   + Fresh(old(nextProcessId), nextProcessId - old(nextProcessId), host.now)
        && nextProcessId == old(nextProcessId) + Successes(host, |idle|)
      ensures forall w | w in old(pool) :: w in pool <==> w.id in host.alive && !Idle(w, host.now)
    {
      CleanupZombieProcesses(host);
      ghost var p := pool;
      var idle := CollectIdle(host.now);
      RestartAll(idle, host);
      SelectMembers(old(pool), host.alive, true);
      forall w | w in old(pool)
        ensures w in pool <==> w.id in host.alive && !Idle(w, host.now)
      {
        DropIdle(p, host.now, w);
      }
    }

    /** The restart loop of `health_check`, over the ids collected from the pool. */
    method RestartAll(idle: seq<nat>, host: Host)
      requires Valid() && idle == IdleIds(pool, host.now)
      modifies this
      ensures Valid() && old(nextProcessId) <= nextProcessId
      ensures pool == Select(old(pool), Graphs.Elems(idle), false)
                      + Fresh(old(nextProcessId), nextProcessId - old(nextProcessId), host.now)
      ensures nextProcessId == old(nextProcessId) + Successes(host, |idle|)
    {
      ghost var n0, p := nextProcessId, pool;
      assert pool == Select(p, Graphs.Elems(idle[..0]), false) + Fresh(n0, 0, host.now) by {
        assert Graphs.Elems(idle[..0]) == {};
        DropAbsent(p, {});
      }
      for k := 0 to |idle|
        invariant Valid() && n0 <= nextProcessId
        invariant pool == Select(p, Graphs.Elems(idle[..k]), false) + Fresh(n0, nextProcessId - n0, host.now)
        invariant nextProcessId == n0 + Successes(host, k)
      {
        RestartOne(p, idle, k, n0, host);
      }
      assert idle[..|idle|] == idle;
    }

    /** One iteration of the restart loop: the worker with `idle[k]` is restarted, the
        spawn seeing the `k`-th outcome. */
    method RestartOne(ghost p: seq<Worker>, idle: seq<nat>, k: nat, ghost n0: nat, host: Host)
      requires Valid() && n0 <= nextProcessId && k < |idle|
      requires idle == IdleIds(p, host.now) && Ascending(p) && Below(p, n0)
      requires pool == Select(p, Graphs.Elems(idle[..k]), false) + Fresh(n0, nextProcessId - n0, host.now)
      requires nextProcessId == n0 + Successes(host, k)
      modifies this
      ensures Valid() && n0 <= nextProcessId
      ensures pool == Select(p, Graphs.Elems(idle[..k + 1]), false) + Fresh(n0, nextProcessId - n0, host.now)
      ensures nextProcessId == n0 + Successes(host, k + 1)
    {
      ghost var m := nextProcessId - n0;
      ghost var kept := Select(p, Graphs.Elems(idle[..k + 1]), false);
      RestartStep(p, idle, k, n0, m, host.now);
      ghost var removed := Select(pool, {idle[k]}, false);
      var r := RestartProcess(idle[k], host.Shift(k));
      RestartCounted(host, k, n0, m, kept, removed, r.Ok?, pool, nextProcessId);
    }
  }

  /** The idle ids of a list with ascending ids ascend too, so none repeats. */
  lemma {:induction false} IdleIdsAscending(p: seq<Worker>, now: nat)
    requires Ascending(p)
    ensures forall i, j | 0 <= i < j < |IdleIds(p, now)| :: IdleIds(p, now)[i] < IdleIds(p, now)[j]
  {
    if |p| > 0 {
      var front, w := p[..|p| - 1], p[|p| - 1];
      IdleIdsAscending(front, now);
      var ids := IdleIds(front, now);
      forall i | 0 <= i < |ids|
        ensures ids[i] < w.id
      {
        IdleIdsMembers(front, now, ids[i]);
        var v :| v in front && v.id == ids[i] && Idle(v, now);
        var k :| 0 <= k < |front| && front[k] == v;
      }
    }
  }

  /** The bookkeeping of one restart: the `k`-th attempt decides whether a replacement
      is appended, and the counter follows the number of successful attempts. */
  lemma RestartCounted(host: Host, k: nat, n0: nat, m: nat, kept: seq<Worker>, removed: seq<Worker>,
                       spawned: bool, pool: seq<Worker>, next: nat)
    requires removed == kept + Fresh(n0, m, host.now) && m == Successes(host, k)
    requires spawned <==> host.Shift(k).spawn.None?
    requires spawned ==> pool == removed + [Worker(n0 + m, host.now, true)] && next == n0 + m + 1
    requires !spawned ==> pool == removed && next == n0 + m
    ensures n0 <= next && next == n0 + Successes(host, k + 1)
    ensures pool == kept + Fresh(n0, next - n0, host.now)
  {
    assert host.Shift(k).spawn == host.Attempt(k + 0);
    if spawned {
      FreshGrow(kept, n0, m, host.now);
    }
  }

  /** One restart of the health check: the idle worker `idle[k]` is still in the pool, so
      dropping it from the pool drops it from the kept part and leaves the replacements. */
  lemma RestartStep(p: seq<Worker>, idle: seq<nat>, k: nat, n0: nat, m: nat, now: nat)
    requires k < |idle| && idle == IdleIds(p, now) && Ascending(p) && Below(p, n0)
    ensures idle[k] in Ids(Select(p, Graphs.Elems(idle[..k]), false) + Fresh(n0, m, now))
    ensures Select(Select(p, Graphs.Elems(idle[..k]), false) + Fresh(n0, m, now), {idle[k]}, false)
            == Select(p, Graphs.Elems(idle[..k + 1]), false) + Fresh(n0, m, now)
  {
    var id := idle[k];
    var before := Graphs.Elems(idle[..k]);
    assert id in idle;
    IdleIdsMembers(p, now, id);
    var v :| v in p && v.id == id && Idle(v, now);
    var j :| 0 <= j < |p| && p[j] == v;
    assert id < n0;
    IdleIdsAscending(p, now);
    assert id !in before;
    SelectMembers(p, before, false);
    assert v in Select(p, before, false);
    assert idle[..k + 1] == idle[..k] + [id];
    assert Graphs.Elems(idle[..k + 1]) == before + {id};
    var kept, spawned := Select(p, before, false), Fresh(n0, m, now);
    SelectAppend(kept, spawned, {id}, false);
    DropTwice(p, before, {id});
    DropAbsent(spawned, {id});
    assert Select(kept + spawned, {id}, false) == Select(kept, {id}, false) + spawned;
    assert Select(kept, {id}, false) == Select(p, before + {id}, false);
  }
}
