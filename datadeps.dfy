/**
 * The task data-dependency engine: the free list of table entries, the
 * queue of deferred remote requests, the list of remotely blocked tasks, and
 * the operations that file, match and release dependencies. Locks and atomic
 * operations are dropped; every operation runs as one sequential step. Calls
 * into the transport, the scheduler and the copy-in support are recorded, in
 * order, in `log`.
 */
module DataDeps {
  import opened DepTypes
  import opened DepHash
  import opened Matching

  /**
   * The results of the engine's entry points: DART_OK, DART_ERR_INVAL, and
   * Aborted for a failed assertion, after which the program stops.
   */
  datatype Ret = Ok | ErrInval | Aborted

  /** The remote releases release_remote_dependencies sends for a list of remote successors, in list order. */
  function ReleaseEvents(rs: seq<Entry>): (ev: seq<Event>)
    ensures |ev| == |rs|
    ensures forall i :: 0 <= i < |rs| ==> ev[i] == RemoteRelease(rs[i].origin, rs[i].task, rs[i].dep)
  {
    if rs == [] then []
    else
      var e := rs[|rs| - 1];
      ReleaseEvents(rs[..|rs| - 1]) + [RemoteRelease(e.origin, e.task, e.dep)]
  }

  /** The dependency handle_remote_direct files and sends: a direct one with a null pointer. */
  const DirectDep := Dep(Direct, NullGPtr, 0, null, 0)

  /**
   * The list with the first occurrence of `x` taken out: how a task leaves
   * the list of remotely blocked tasks.
   */
  function RemoveFirst(s: seq<Task>, x: Task): (r: seq<Task>)
    ensures x !in s ==> r == s
    ensures x in s ==> |r| == |s| - 1 && multiset(r) == multiset(s) - multiset{x}
    ensures Count(r, x) == if x in s then Count(s, x) - 1 else 0
  {
    if s == [] then []
    else if s[0] == x then
      assert s == [s[0]] + s[1..];
      s[1..]
    else
      assert s == [s[0]] + s[1..];
      [s[0]] + RemoveFirst(s[1..], x)
  }

  /** The total number of entries in the first `n` buckets of a table. */
  function TableSize(t: seq<seq<Entry>>, n: nat): nat
    requires n <= |t|
  {
    if n == 0 then 0 else TableSize(t, n - 1) + |t[n - 1]|
  }

  /** What release_local_task reads of a successor: its state and its two counters. */
  datatype Counters = Counters(state: TaskState, local: int, remote: int)

  /**
   * The match the deferred pass finds for request `r` in the table `t`: the
   * remote walk over the bucket the request's address hashes to; nothing
   * when there is no table.
   */
  function RequestMatch(t: Option<seq<seq<Entry>>>, r: Entry): RemoteMatch
    requires TableOk(t)
    reads TableTasks(t)`state, TableTasks(t)`phase
  {
    if t.None? then RemoteMatch(null, null)
    else
      var slot := HashGptr(r.dep.gptr);
      BucketTasksInTable(t, slot);
      RemoteScan(t.value[slot], r.dep, 0, null)
  }

  /** The matches of the requests of `q`, in order. */
  function Matches(t: Option<seq<seq<Entry>>>, q: seq<Entry>): (ms: seq<RemoteMatch>)
    requires TableOk(t)
    reads TableTasks(t)`state, TableTasks(t)`phase
    ensures |ms| == |q|
    ensures forall i :: 0 <= i < |q| ==> ms[i] == RequestMatch(t, q[i])
  {
    if q == [] then [] else Matches(t, q[..|q| - 1]) + [RequestMatch(t, q[|q| - 1])]
  }

  /** The candidate and the direct candidate the remote walk finds are tasks of the bucket. */
  lemma MatchInBucket(b: seq<Entry>, d: Dep, candidate: Task?, direct: Task?)
    requires forall k :: 0 <= k < |b| ==> b[k].task.Local?
    requires RemoteMatch(candidate, direct) == RemoteScan(b, d, 0, null)
    ensures candidate != null ==> candidate in BucketTasks(b)
    ensures direct != null ==> direct in BucketTasks(b)
  {
    RemoteScanFinds(b, d, 0, null);
    if candidate != null {
      var k :| 0 <= k < |b| && Considered(b[k], d) && b[k].task.task == candidate;
      assert b[k].task.task in BucketTasks(b);
    }
    if direct != null {
      var k :| 0 <= k < |b| && Considered(b[k], d) && b[k].task.task == direct;
      assert b[k].task.task in BucketTasks(b);
    }
  }

  /**
   * The calls the deferred pass makes for the first `n` requests of `q`
   * with matches `ms`: a direct edge to the origin for a request with a
   * direct candidate, then a release for one without a candidate.
   */
  function PassEvents(q: seq<Entry>, ms: seq<RemoteMatch>, n: nat): seq<Event>
    requires n <= |q| == |ms|
  {
    if n == 0 then [] else PassEvents(q, ms, n - 1) + AnswerEvents(q[n - 1], ms[n - 1])
  }

  /** The calls the pass makes to answer request `r` with match `m`. */
  function AnswerEvents(r: Entry, m: RemoteMatch): seq<Event> {
    (if m.direct != null then [DirectEdge(r.origin, m.direct, r.task)] else [])
      + (if m.candidate == null then [RemoteRelease(r.origin, r.task, r.dep)] else [])
  }

  /** How many of the first `n` matches name `t` as direct candidate. */
  function DirectCount(ms: seq<RemoteMatch>, n: nat, t: Task): nat
    requires n <= |ms|
  {
    if n == 0 then 0 else DirectCount(ms, n - 1, t) + if ms[n - 1].direct == t then 1 else 0
  }

  /**
   * The remote successor list `s` of `t` after the first `n` requests: each
   * request `t` is the candidate for is pushed onto it.
   */
  function Attached(q: seq<Entry>, ms: seq<RemoteMatch>, n: nat, t: Task, s: seq<Entry>): seq<Entry>
    requires n <= |q| == |ms|
  {
    if n == 0 then s
    else if ms[n - 1].candidate == t then [q[n - 1]] + Attached(q, ms, n - 1, t, s)
    else Attached(q, ms, n - 1, t, s)
  }

  /** One more request pushes itself onto the remote successors of its candidate and of no other task. */
  lemma AttachedStep(q: seq<Entry>, ms: seq<RemoteMatch>, n: nat, t: Task, s: seq<Entry>, cur: seq<Entry>, next: seq<Entry>)
    requires n < |q| == |ms|
    requires cur == Attached(q, ms, n, t, s)
    requires next == if ms[n].candidate == t then [q[n]] + cur else cur
    ensures next == Attached(q, ms, n + 1, t, s)
  {
  }

  /** One more request adds one remote dependency to its direct candidate and to no other task. */
  lemma DirectCountStep(ms: seq<RemoteMatch>, n: nat, t: Task, c0: int, cur: int, next: int)
    requires n < |ms|
    requires cur == c0 + DirectCount(ms, n, t)
    requires next == cur + if ms[n].direct == t then 1 else 0
    ensures next == c0 + DirectCount(ms, n + 1, t)
  {
  }

  /**
   * The remote counters and remote successor lists of `tasks` after the
   * first `n` requests of the pass, from `counts` and `lists` before it.
   */
  ghost predicate Answered(q: seq<Entry>, ms: seq<RemoteMatch>, n: nat, tasks: set<Task>,
                           counts: map<Task, int>, lists: map<Task, seq<Entry>>)
    requires n <= |q| == |ms|
    reads tasks`unresolvedRemoteDeps, tasks`remoteSuccessor
  {
    forall t :: t in tasks ==>
      && t in counts && t in lists
      && t.unresolvedRemoteDeps == counts[t] + DirectCount(ms, n, t)
      && t.remoteSuccessor == Attached(q, ms, n, t, lists[t])
  }

  /** The log `s` after the calls the pass makes for the first `n` requests. */
  function PassLog(q: seq<Entry>, ms: seq<RemoteMatch>, n: nat, s: seq<Event>): seq<Event>
    requires n <= |q| == |ms|
  {
    if n == 0 then s else PassLog(q, ms, n - 1, s) + AnswerEvents(q[n - 1], ms[n - 1])
  }

  /** The pass only appends to the log, and what it appends are PassEvents. */
  lemma {:induction false} PassLogAppends(q: seq<Entry>, ms: seq<RemoteMatch>, n: nat, s: seq<Event>)
    requires n <= |q| == |ms|
    ensures PassLog(q, ms, n, s) == s + PassEvents(q, ms, n)
  {
    if n > 0 {
      PassLogAppends(q, ms, n - 1, s);
    }
  }

  /** The free list `s` after the first `n` requests: each one released recycles its entry. */
  function Recycled(ms: seq<RemoteMatch>, n: nat, s: seq<Entry>): seq<Entry>
    requires n <= |ms|
  {
    if n == 0 then s
    else if ms[n - 1].candidate == null then [Zeroed] + Recycled(ms, n - 1, s)
    else Recycled(ms, n - 1, s)
  }

  /** The pass pushes one zeroed entry per released request onto the free list. */
  lemma {:induction false} RecycledAreReleased(ms: seq<RemoteMatch>, n: nat, s: seq<Entry>)
    requires n <= |ms|
    ensures Recycled(ms, n, s) == Zeroes(Released(ms, n)) + s
  {
    if n > 0 {
      RecycledAreReleased(ms, n - 1, s);
      if ms[n - 1].candidate == null {
        assert [Zeroed] + (Zeroes(Released(ms, n - 1)) + s) == Zeroes(Released(ms, n - 1) + 1) + s;
      }
    }
  }

  /** How many of the first `n` requests have no candidate and are released. */
  function Released(ms: seq<RemoteMatch>, n: nat): nat
    requires n <= |ms|
  {
    if n == 0 then 0 else Released(ms, n - 1) + if ms[n - 1].candidate == null then 1 else 0
  }

  /**
   * The tasks the first `n` requests put on the list of remotely blocked
   * tasks, the latest first: a direct candidate whose remote counter, which
   * was `counts` before the pass, was 0 before its increment.
   */
  function Blocked(ms: seq<RemoteMatch>, n: nat, counts: map<Task, int>, s: seq<Task>): seq<Task>
    requires n <= |ms|
  {
    if n == 0 then s
    else
      var d := ms[n - 1].direct;
      (if d != null && d in counts && counts[d] + DirectCount(ms, n - 1, d) == 0 then [d] else [])
        + Blocked(ms, n - 1, counts, s)
  }

  /** One more request puts its direct candidate on the list when that task had no remote dependency before. */
  lemma BlockedStep(ms: seq<RemoteMatch>, n: nat, counts: map<Task, int>, s: seq<Task>, cur: seq<Task>, next: seq<Task>)
    requires n < |ms| && cur == Blocked(ms, n, counts, s)
    requires var d := ms[n].direct;
      next == (if d != null && d in counts && counts[d] + DirectCount(ms, n, d) == 0 then [d] else []) + cur
    ensures next == Blocked(ms, n + 1, counts, s)
  {
  }

  /** The remote counters of `tasks`. */
  function RemoteCounts(tasks: set<Task>): (c: map<Task, int>)
    reads tasks`unresolvedRemoteDeps
    ensures c.Keys == tasks
    ensures forall t :: t in tasks ==> c[t] == t.unresolvedRemoteDeps
  {
    map t | t in tasks :: t.unresolvedRemoteDeps
  }

  /** The remote successor lists of `tasks`. */
  function RemoteLists(tasks: set<Task>): (l: map<Task, seq<Entry>>)
    reads tasks`remoteSuccessor
    ensures l.Keys == tasks
    ensures forall t :: t in tasks ==> l[t] == t.remoteSuccessor
  {
    map t | t in tasks :: t.remoteSuccessor
  }

  /** The states and counters of the tasks of `s`, position by position. */
  function Snap(s: seq<Task>): (c: seq<Counters>)
    reads (set t | t in s)`state, (set t | t in s)`unresolvedDeps, (set t | t in s)`unresolvedRemoteDeps
    ensures |c| == |s|
    ensures forall j :: 0 <= j < |s| ==>
      c[j] == Counters(s[j].state, s[j].unresolvedDeps, s[j].unresolvedRemoteDeps)
  {
    if s == [] then []
    else
      var t := s[|s| - 1];
      Snap(s[..|s| - 1]) + [Counters(t.state, t.unresolvedDeps, t.unresolvedRemoteDeps)]
  }

  /**
   * The log `acc` after the runnable notices release_local_task issues
   * while popping the first `n` successors of `s`, given their states and
   * counters `c` before the release: a successor is enqueued at the pop that
   * brings its local counter to 0, when its remote counter is 0 and it is in
   * state Created.
   */
  function ReadyOnRelease(s: seq<Task>, c: seq<Counters>, n: nat, acc: seq<Event>): seq<Event>
    requires n <= |s| == |c|
  {
    if n == 0 then acc
    else
      var k := c[n - 1];
      ReadyOnRelease(s, c, n - 1, acc) +
        if k.state == Created && k.local - Count(s[..n], s[n - 1]) == 0 && k.remote == 0
        then [Runnable(s[n - 1])] else []
  }

  /** The notices are appended to whatever the log held before. */
  lemma {:induction false} ReadyOnReleaseAppends(s: seq<Task>, c: seq<Counters>, n: nat, acc: seq<Event>)
    requires n <= |s| == |c|
    ensures ReadyOnRelease(s, c, n, acc) == acc + ReadyOnRelease(s, c, n, [])
  {
    if n > 0 {
      ReadyOnReleaseAppends(s, c, n - 1, acc);
    }
  }

  /**
   * Over the first `n` pops, a successor `t` whose counters before the
   * release were `k` is enqueued exactly when it is in state Created with no
   * remote dependency and some pop brings its local counter from 1 to 0:
   * when it had at least one and at most as many local dependencies as it
   * occurs among those pops.
   */
  lemma {:induction false} ReadyOnReleaseHas(s: seq<Task>, c: seq<Counters>, n: nat, t: Task, k: Counters)
    requires n <= |s| == |c|
    requires forall j :: 0 <= j < |s| && s[j] == t ==> c[j] == k
    ensures Runnable(t) in ReadyOnRelease(s, c, n, []) <==>
      k.state == Created && k.remote == 0 && 1 <= k.local <= Count(s[..n], t)
  {
    if n == 0 {
      assert s[..0] == [];
    } else {
      ReadyOnReleaseHas(s, c, n - 1, t, k);
      CountPrefixStep(s, n - 1, t);
    }
  }

  /**
   * release_local_task enqueues a successor exactly when it is in state
   * Created and, once every one of its occurrences in the successor list
   * has been released, both its counters are 0 (`s` and the counters are
   * those before the release, which has to leave no counter negative).
   */
  lemma ReleaseEnqueuesIff(s: seq<Task>, t: Task)
    requires t in s ==> t.unresolvedDeps >= Count(s, t)
    ensures Runnable(t) in ReadyOnRelease(s, Snap(s), |s|, []) <==>
      t in s && t.state == Created && t.unresolvedRemoteDeps == 0 && t.unresolvedDeps - Count(s, t) == 0
  {
    var c := Snap(s);
    ReadyOnReleaseHas(s, c, |s|, t, Counters(t.state, t.unresolvedDeps, t.unresolvedRemoteDeps));
    assert s[..|s|] == s;
    CountBounds(s, t);
  }

  /**
   * The runnable notices cancel_remote_deps issues while draining the
   * blocked list `s`: one for each popped task whose local counter is 0.
   */
  function CancelEvents(s: seq<Task>): seq<Event>
    reads (set t | t in s)`unresolvedDeps
  {
    if s == [] then []
    else
      var t := s[|s| - 1];
      CancelEvents(s[..|s| - 1]) + if t.unresolvedDeps == 0 then [Runnable(t)] else []
  }

  /**
   * cancel_remote_deps makes only runnable notices, and one for a task
   * exactly when the task was blocked and has no local dependency left.
   */
  lemma {:induction false} CancelEventsIff(s: seq<Task>, t: Task)
    ensures Runnable(t) in CancelEvents(s) <==> t in s && t.unresolvedDeps == 0
    ensures forall e :: e in CancelEvents(s) ==> e.Runnable?
  {
    if s != [] {
      CancelEventsIff(s[..|s| - 1], t);
      assert s == s[..|s| - 1] + [s[|s| - 1]];
    }
  }

  /**
   * The deferred tasks handle_defered_local hands on to the thread's queue,
   * in the order they are popped: those that gained no remote dependency.
   */
  function StillReady(s: seq<Task>): seq<Task>
    reads (set t | t in s)`unresolvedRemoteDeps
  {
    if s == [] then []
    else
      var t := s[|s| - 1];
      StillReady(s[..|s| - 1]) + if t.unresolvedRemoteDeps == 0 then [t] else []
  }

  /**
   * A deferred task is handed on exactly when it was deferred and has no
   * unresolved remote dependency, and no more tasks are handed on than were
   * deferred.
   */
  lemma {:induction false} StillReadyIff(s: seq<Task>, t: Task)
    ensures t in StillReady(s) <==> t in s && t.unresolvedRemoteDeps == 0
    ensures |StillReady(s)| <= |s|
  {
    if s != [] {
      StillReadyIff(s[..|s| - 1], t);
      assert s == s[..|s| - 1] + [s[|s| - 1]];
    }
  }

  /**
   * release_local_dep_counter: one local dependency of `t` is resolved. The
   * counters must not underflow; the result says whether `t` has no
   * unresolved dependency left.
   */
  method ReleaseLocalCounter(t: Task) returns (runnable: bool)
    requires t.unresolvedDeps >= 1 && t.unresolvedRemoteDeps >= 0
    modifies t`unresolvedDeps
    ensures t.unresolvedDeps == old(t.unresolvedDeps) - 1 >= 0
    ensures runnable <==> t.unresolvedDeps == 0 && t.unresolvedRemoteDeps == 0
  {
    t.unresolvedDeps := t.unresolvedDeps - 1;
    runnable := t.unresolvedDeps == 0 && t.unresolvedRemoteDeps == 0;
  }

  /**
   * handle_local_direct: a direct dependency on an active task makes `task`
   * its successor and adds one unresolved dependency; on a null or
   * inactive task it does nothing. No check for an existing edge is made.
   */
  method HandleLocalDirect(dep: Dep, task: Task)
    modifies {dep.task}`successor, task`unresolvedDeps
    ensures if dep.task != null && IsActive(dep.task.state) then
        && dep.task.successor == [task] + old(dep.task.successor)
        && task.unresolvedDeps == old(task.unresolvedDeps) + 1
      else
        && (dep.task != null ==> dep.task.successor == old(dep.task.successor))
        && task.unresolvedDeps == old(task.unresolvedDeps)
  {
    var deptask := dep.task;
    if deptask != null && IsActive(deptask.state) {
      deptask.successor := [task] + deptask.successor;
      task.unresolvedDeps := task.unresolvedDeps + 1;
    }
  }

  /**
   * One entry of match_local_datadep's walk. An entry on the address that
   * belongs to another task and that the dependency must wait for (see
   * Matching.WantsEdge) makes its task, when active and not yet listing
   * `task`, gain `task` as a successor, and `task` one unresolved
   * dependency. `stop` says whether the walk ends here (`task`'s own entry
   * or a write on the address); `upgrade` whether `task`'s own read entry
   * is to become a read-write one.
   */
  method MatchEntry(e: Entry, dep: Dep, task: Task) returns (stop: bool, upgrade: bool, added: bool)
    requires e.task.Local?
    modifies {e.task.task}`successor, task`unresolvedDeps
    ensures stop == StopsLocal(e, dep, task)
    ensures upgrade == (stop && e.task == Local(task) && e.dep.kind == In && IsOutDep(dep))
    ensures added <==> WantsEdge(e, dep, task) && IsActive(e.task.task.state) && task !in old(e.task.task.successor)
    ensures e.task.task.successor == if added then [task] + old(e.task.task.successor) else old(e.task.task.successor)
    ensures task.unresolvedDeps == old(task.unresolvedDeps) + if added then 1 else 0
  {
    stop, upgrade, added := false, false, false;
    if DepAddrEq(e.dep, dep) {
      var elemTask := e.task.task;
      if elemTask == task {
        upgrade := e.dep.kind == In && IsOutDep(dep);
        stop := true;
        return;
      }
      if IsOutDep(dep) || (dep.kind == In && IsOutDep(e.dep)) {
        if IsActive(elemTask.state) {
          if task !in elemTask.successor {
            task.unresolvedDeps := task.unresolvedDeps + 1;
            elemTask.successor := [task] + elemTask.successor;
            added := true;
          }
        }
      }
      stop := IsOutDep(e.dep);
    }
  }

  /** The successor lists of `tasks`. */
  function Successors(tasks: set<Task>): (l: map<Task, seq<Task>>)
    reads tasks`successor
    ensures l.Keys == tasks
    ensures forall t :: t in tasks ==> l[t] == t.successor
  {
    map t | t in tasks :: t.successor
  }

  /**
   * Of the tasks in `tasks`, exactly those in `edges` have gained `task` as
   * a new head of the successor list they had in `succ`.
   */
  ghost predicate Gained(tasks: set<Task>, edges: set<Task>, task: Task, succ: map<Task, seq<Task>>)
    reads tasks`successor
  {
    forall t :: t in tasks ==> t in succ && t.successor == if t in edges then [task] + succ[t] else succ[t]
  }

  /**
   * One round of MatchBucket's walk, at entry `j`: the edges grow from the
   * eligible producers among the first `j` entries to those among the
   * first `j + 1` (see MatchEntry), with the successor lists and the
   * counter following.
   */
  method MatchRound(b: seq<Entry>, dep: Dep, task: Task, ghost tasks: set<Task>, j: nat,
                    ghost eligible: set<Task>, ghost succ: map<Task, seq<Task>>, ghost edges: set<Task>, ghost c0: int)
    returns (stop: bool, upgrade: bool, ghost edges': set<Task>)
    requires j < |b| && b[j].task.Local? && b[j].task.task in tasks
    requires tasks <= succ.Keys
    requires forall t :: t in tasks ==> (t in eligible <==> IsActive(t.state) && task !in succ[t])
    requires edges == EligibleProducers(b, dep, task, j, eligible)
    requires Gained(tasks, edges, task, succ) && task.unresolvedDeps == c0 + |edges|
    modifies task`unresolvedDeps, tasks`successor
    ensures stop == StopsLocal(b[j], dep, task)
    ensures upgrade == (stop && b[j].task == Local(task) && b[j].dep.kind == In && IsOutDep(dep))
    ensures edges' == EligibleProducers(b, dep, task, j + 1, eligible)
    ensures Gained(tasks, edges', task, succ) && task.unresolvedDeps == c0 + |edges'|
  {
    var e := b[j];
    ghost var x := e.task.task;
    assert task in x.successor <==> x in edges || task in succ[x];
    var added;
    stop, upgrade, added := MatchEntry(e, dep, task);
    assert added <==> WantsEdge(e, dep, task) && x in eligible && x !in edges;
    assert x in edges ==> edges + {x} == edges;
    EligibleProducersStep(b, dep, task, j, eligible);
    edges' := if added then edges + {x} else edges;
  }

  /**
   * The walk of match_local_datadep over one bucket `b`, newest entry
   * first, up to the first entry on the address that is `task`'s own or a
   * write (see MatchEntry). Every producer the walk meets (see
   * Matching.LocalProducers) gains `task` as a successor, once, when it is
   * active and does not list `task` already; `task` gains one unresolved
   * dependency per new edge. `upgrade` says whether the walk stopped at
   * `task`'s own read entry with a writing dependency; `edges` names the
   * producers that gained an edge. `tasks` holds every task of the bucket.
   */
  method MatchBucket(b: seq<Entry>, dep: Dep, task: Task, ghost tasks: set<Task>)
    returns (upgrade: bool, ghost edges: set<Task>)
    requires forall k :: 0 <= k < |b| ==> b[k].task.Local? && b[k].task.task in tasks
    modifies task`unresolvedDeps, tasks`successor
    ensures upgrade == Upgrades(b, dep, task)
    ensures edges <= tasks
    ensures forall t :: t in tasks ==>
      (t in edges <==> t in LocalProducers(b, dep, task) && IsActive(t.state) && task !in old(t.successor))
    ensures task.unresolvedDeps == old(task.unresolvedDeps) + |edges|
    ensures forall t :: t in tasks ==>
      t.successor == if t in edges then [task] + old(t.successor) else old(t.successor)
  {
    edges := {};
    upgrade := false;
    ghost var succ := Successors(tasks);
    ghost var eligible := set t | t in tasks && IsActive(t.state) && task !in succ[t];
    ghost var stop := StopIndex(b, dep, task);
    var j := 0;
    var done := false;
    while j < |b| && !done
      invariant j <= |b|
      invariant !done ==> !upgrade && j <= stop
      invariant done ==> j == EdgeEnd(b, dep, task) && upgrade == Upgrades(b, dep, task)
      invariant edges == EligibleProducers(b, dep, task, j, eligible)
      invariant Gained(tasks, edges, task, succ) && task.unresolvedDeps == old(task.unresolvedDeps) + |edges|
      decreases |b| - j, !done
    {
      var stopHere, up;
      stopHere, up, edges := MatchRound(b, dep, task, tasks, j, eligible, succ, edges, old(task.unresolvedDeps));
      assert stopHere ==> j == stop;
      upgrade, done := up, stopHere;
      j := if stopHere && b[j].task == Local(task) then j else j + 1;
    }
    EligibleProducersAre(b, dep, task, j, eligible);
  }

  /**
   * The matching of MatchLocal in bucket `slot` of the parent's table: walk
   * the bucket (see MatchBucket) and upgrade `task`'s own read entry to a
   * read-write entry where the walk says so. A parent without a table has
   * nothing to match. `tasks` holds every task the table refers to.
   */
  method MatchInSlot(dep: Dep, task: Task, slot: nat, ghost tasks: set<Task>) returns (r: Ret, ghost edges: set<Task>)
    requires slot < DepHashSize && task.parent != null && TableOk(task.parent.localDeps)
    requires TableTasks(task.parent.localDeps) <= tasks
    modifies task.parent`localDeps, task`unresolvedDeps, tasks`successor
    ensures r == Ok
    ensures var t0 := old(task.parent.localDeps);
      task.parent.localDeps ==
        if t0.None? then None else Some(t0.value[slot := MatchedBucket(t0.value[slot], dep, task)])
    ensures TableOk(task.parent.localDeps)
    ensures TableTasks(task.parent.localDeps) == TableTasks(old(task.parent.localDeps))
    ensures edges <= tasks
    ensures forall t :: t in tasks ==>
      (t in edges <==>
        && t in LocalProducers(Buckets(old(task.parent.localDeps))[slot], dep, task)
        && IsActive(t.state) && task !in old(t.successor))
    ensures task.unresolvedDeps == old(task.unresolvedDeps) + |edges|
    ensures forall t :: t in tasks ==>
      t.successor == if t in edges then [task] + old(t.successor) else old(t.successor)
  {
    r := Ok;
    edges := {};
    var parent := task.parent;
    if parent.localDeps.None? {
      assert EdgeEnd([], dep, task) == 0;
      return;
    }
    var table := parent.localDeps.value;
    var b := table[slot];
    BucketEntriesInTable(parent.localDeps, slot);
    var upgrade;
    upgrade, edges := MatchBucket(b, dep, task, tasks);
    MatchedBucketKeepsEntries(b, dep, task);
    ReplaceBucketKeepsTasks(table, slot, MatchedBucket(b, dep, task));
    if upgrade {
      var k := StopIndex(b, dep, task);
      parent.localDeps := Some(table[slot := b[k := b[k].(dep := b[k].dep.(kind := InOut))]]);
    } else {
      assert table[slot := MatchedBucket(b, dep, task)] == table;
    }
  }
  /**
   * dart_tasking_datadeps_match_local_datadep: walk the bucket of the
   * parent's dependency table that `dep`'s address hashes to (see
   * MatchBucket), and upgrade `task`'s own read entry to a read-write entry
   * where the walk says so (see MatchInSlot). A parent without a table has
   * nothing to match. `tasks` holds every task the table refers to.
   */
  method MatchLocal(dep: Dep, task: Task, ghost tasks: set<Task>) returns (r: Ret, ghost edges: set<Task>)
    requires task.parent != null && TableOk(task.parent.localDeps)
    requires TableTasks(task.parent.localDeps) <= tasks
    modifies task.parent`localDeps, task`unresolvedDeps, tasks`successor
    ensures r == Ok
    ensures var t0 := old(task.parent.localDeps); var slot := HashGptr(dep.gptr);
      task.parent.localDeps ==
        if t0.None? then None else Some(t0.value[slot := MatchedBucket(t0.value[slot], dep, task)])
    ensures TableOk(task.parent.localDeps)
    ensures TableTasks(task.parent.localDeps) == TableTasks(old(task.parent.localDeps))
    ensures edges <= tasks
    ensures forall t :: t in tasks ==>
      (t in edges <==>
        && t in LocalProducers(Buckets(old(task.parent.localDeps))[HashGptr(dep.gptr)], dep, task)
        && IsActive(t.state) && task !in old(t.successor))
    ensures task.unresolvedDeps == old(task.unresolvedDeps) + |edges|
    ensures forall t :: t in tasks ==>
      t.successor == if t in edges then [task] + old(t.successor) else old(t.successor)
  {
    r, edges := MatchInSlot(dep, task, HashGptr(dep.gptr), tasks);
  }


  /**
   * The bucket walk of dart_tasking_datadeps_handle_defered_remote for one
   * request `d`: writers on the address are inspected newest first; the walk
   * gives up at the first inactive one and ends at the first active one
   * from an earlier phase, the candidate. Active writers in the request's
   * phase or later become the direct candidate when there is none yet or
   * when the current one's task phase exceeds their entry's phase.
   */
  method ScanRemote(b: seq<Entry>, d: Dep) returns (candidate: Task?, direct: Task?)
    requires forall k :: 0 <= k < |b| ==> b[k].task.Local?
    ensures RemoteMatch(candidate, direct) == RemoteScan(b, d, 0, null)
  {
    candidate, direct := null, null;
    var j := 0;
    while j < |b|
      invariant j <= |b| && candidate == null
      invariant RemoteScan(b, d, 0, null) == RemoteScan(b, d, j, direct)
    {
      var local := b[j];
      var localTask := local.task.task;
      assert localTask in BucketTasks(b);
      if localTask != candidate && IsOutDep(local.dep) && DepAddrEq(local.dep, d) {
        if !IsActive(localTask.state) {
          break;
        }
        if local.dep.phase < d.phase {
          candidate := localTask;
          break;
        } else if direct == null || direct.phase > local.dep.phase {
          direct := localTask;
        }
      }
      j := j + 1;
    }
  }

  /**
   * The walk of match_delayed_local_datadep over one bucket: entries of a
   * later phase are skipped, remembering the last writer on the address
   * among them, and the walk ends at the first writer on the address from
   * the dependency's phase or earlier. `k` is that writer's index (|b| when
   * there is none) and `next` the remembered one's (-1 when there is none).
   * Meeting an entry of `task` itself on the address before that (or as
   * that writer) fails the source's assertion: `own`.
   */
  method ScanDelayed(b: seq<Entry>, dep: Dep, task: Task) returns (k: nat, next: int, own: bool)
    ensures own <==> var d := DelayedIndex(b, dep); !NoOwnEntryBefore(b, dep, task, if d < |b| then d + 1 else d)
    ensures !own ==> k == DelayedIndex(b, dep) && next == NextOut(b, dep, k)
  {
    k, next, own := 0, -1, false;
    while k < |b|
      invariant k <= |b|
      invariant forall j :: 0 <= j < k ==> !DelayedProducer(b[j], dep)
      invariant NoOwnEntryBefore(b, dep, task, k)
      invariant next == NextOut(b, dep, k)
    {
      var e := b[k];
      if e.dep.phase > dep.phase {
        if DepAddrEq(e.dep, dep) && IsOutDep(e.dep) {
          next := k;
        }
      } else if DepAddrEq(e.dep, dep) {
        if e.task == Local(task) {
          own := true;
          return;
        }
        if IsOutDep(e.dep) {
          break;
        }
      }
      k := k + 1;
    }
  }

  /**
   * The unresolved dependencies `t` gains when the delayed walk ends at
   * index `k` with the later-phase writer `n`: one for `task` when it waits
   * for an active producer, one for the later-phase writer.
   */
  function DelayedGain(b: seq<Entry>, k: nat, n: int, active: bool, task: Task, t: Task): nat
    requires forall j :: 0 <= j < |b| ==> b[j].task.Local?
    requires n < k <= |b|
  {
    (if k < |b| && active && t == task then 1 else 0) + (if k < |b| && n >= 0 && t == b[n].task.task then 1 else 0)
  }

  /**
   * The successors pushed onto `t` in that case: the later-phase writer
   * onto `task`, and `task` onto an active producer.
   */
  function DelayedPushed(b: seq<Entry>, k: nat, n: int, active: bool, task: Task, t: Task): seq<Task>
    requires forall j :: 0 <= j < |b| ==> b[j].task.Local?
    requires n < k <= |b|
  {
    (if k < |b| && n >= 0 && t == task then [b[n].task.task] else [])
      + (if k < |b| && active && t == b[k].task.task then [task] else [])
  }

  /**
   * The edges match_delayed_local_datadep adds once it has found the
   * producer `b[k]`: `task` waits for the producer while that is active,
   * and the writer `b[next]` of the next later phase, when there is one,
   * waits for `task`. Nothing checks for an edge that already exists, and
   * without a producer (`k == |b|`) nothing changes. A later-phase writer
   * that is no longer active fails the source's assertion (`!ok`) after
   * the first edge.
   */
  method DelayedEdges(b: seq<Entry>, k: nat, next: int, task: Task, ghost tasks: set<Task>)
    returns (ok: bool, ghost waits: bool)
    requires k <= |b| && -1 <= next < k && task in tasks
    requires forall j :: 0 <= j < |b| ==> b[j].task.Local? && b[j].task.task in tasks
    modifies tasks`unresolvedDeps, tasks`successor
    ensures waits == (k < |b| && IsActive(b[k].task.task.state))
    ensures ok == !(k < |b| && next >= 0 && !IsActive(b[next].task.task.state))
    ensures forall t {:trigger t in tasks} :: t in tasks ==>
      && t.unresolvedDeps == old(t.unresolvedDeps) + DelayedGain(b, k, if ok then next else -1, waits, task, t)
      && t.successor == DelayedPushed(b, k, if ok then next else -1, waits, task, t) + old(t.successor)
  {
    ok, waits := true, false;
    if k == |b| {
      return;
    }
    var producer := b[k].task.task;
    waits := IsActive(producer.state);
    if IsActive(producer.state) {
      task.unresolvedDeps := task.unresolvedDeps + 1;
      producer.successor := [task] + producer.successor;
    }
    if next >= 0 {
      var nextOut := b[next].task.task;
      if !IsActive(nextOut.state) {
        ok := false;
        return;
      }
      nextOut.unresolvedDeps := nextOut.unresolvedDeps + 1;
      task.successor := [nextOut] + task.successor;
    }
  }

  /**
   * `task` becomes a successor of `producer` and gains one unresolved
   * dependency, with no check for an existing edge or an inactive producer.
   */
  method WaitFor(producer: Task, task: Task, ghost tasks: set<Task>)
    requires producer in tasks && task in tasks
    modifies tasks`unresolvedDeps, tasks`successor
    ensures forall t {:trigger t in tasks} :: t in tasks ==>
      && t.unresolvedDeps == old(t.unresolvedDeps) + (if t == task then 1 else 0)
      && t.successor == (if t == producer then [task] else []) + old(t.successor)
  {
    task.unresolvedDeps := task.unresolvedDeps + 1;
    producer.successor := [task] + producer.successor;
  }

  /**
   * Inserting an entry of a local task into one bucket keeps the table well
   * formed and adds that task to the tasks the table refers to.
   */
  lemma InsertKeepsTable(t: seq<seq<Entry>>, slot: nat, k: nat, e: Entry)
    requires TableOk(Some(t)) && slot < |t| && k <= |t[slot]| && e.task.Local?
    ensures TableOk(Some(t[slot := InsertAt(t[slot], k, e)]))
    ensures TableTasks(Some(t[slot := InsertAt(t[slot], k, e)])) == TableTasks(Some(t)) + {e.task.task}
  {
    var b := t[slot];
    var r := t[slot := InsertAt(b, k, e)];
    InsertAtPlacesBefore(b, k, e);
    forall x | x in TableTasks(Some(r)) ensures x in TableTasks(Some(t)) + {e.task.task} {
      var i, j :| 0 <= i < |r| && 0 <= j < |r[i]| && r[i][j].task.Local? && r[i][j].task.task == x;
      if i == slot && j < k {
        assert r[i][j] == b[j];
      } else if i == slot && j > k {
        assert r[i][j] == b[j - 1];
      } else if i != slot {
        assert r[i][j] == t[i][j];
      }
    }
    forall x | x in TableTasks(Some(t)) + {e.task.task} ensures x in TableTasks(Some(r)) {
      if x == e.task.task {
        assert r[slot][k] == e;
      } else {
        var i, j :| 0 <= i < |t| && 0 <= j < |t[i]| && t[i][j].task.Local? && t[i][j].task.task == x;
        if i == slot && j >= k {
          assert r[i][j + 1] == t[i][j];
        } else {
          assert r[i][j] == t[i][j];
        }
      }
    }
  }

  /**
   * The walk of handle_copyin over one bucket for the destination address
   * `addr`: it ends at the first entry on the address from an earlier phase
   * or written in the same phase (see Matching.CopyinIndex).
   */
  method ScanCopyin(b: seq<Entry>, addr: Word, phase: int) returns (k: nat)
    ensures k == CopyinIndex(b, addr, phase)
  {
    k := 0;
    while k < |b|
      invariant k <= |b|
      invariant forall j :: 0 <= j < k ==> !EndsCopyinScan(b[j], addr, phase)
    {
      var e := b[k];
      if e.dep.gptr.addr == addr {
        if e.dep.phase < phase {
          break;
        }
        if IsOutDep(e.dep) && phase == e.dep.phase {
          break;
        }
      }
      k := k + 1;
    }
  }

  /**
   * The task already copying the data to `addr` in `phase` that the copy-in
   * scan finds in bucket `slot` of the table `t`, null when there is none.
   */
  function CopyinProducer(t: Option<seq<seq<Entry>>>, slot: nat, addr: Word, phase: int): Task?
    requires TableOk(t) && slot < DepHashSize
  {
    var b := Buckets(t)[slot];
    if CopyinFound(b, addr, phase) then
      assert t.Some?;
      b[CopyinIndex(b, addr, phase)].task.task
    else null
  }

  /**
   * The table after the local branch of handle_task for a dependency that
   * is not a delayed input: the immediate matching's upgrade of the task's
   * own read entry (see Matching.MatchedBucket), then the new entry at the
   * head of its bucket.
   */
  function LocallyFiled(t: Option<seq<seq<Entry>>>, d: Dep, task: Task, origin: int): seq<seq<Entry>>
    requires TableOk(t)
  {
    var slot := HashGptr(d.gptr);
    if t.None? then PushEntry(None, Entry(d, Local(task), origin))
    else
      var b := t.value[slot];
      MatchedBucketKeepsEntries(b, d, task);
      ReplaceBucketKeepsTasks(t.value, slot, MatchedBucket(b, d, task));
      PushEntry(Some(t.value[slot := MatchedBucket(b, d, task)]), Entry(d, Local(task), origin))
  }

  /**
   * The local branch files the new entry at the head of the bucket its
   * address hashes to, over that bucket as the immediate matching left it;
   * every other bucket is unchanged, and the table's tasks gain `task`.
   */
  lemma LocallyFiledAtHead(t: Option<seq<seq<Entry>>>, d: Dep, task: Task, origin: int)
    requires TableOk(t)
    ensures var r := LocallyFiled(t, d, task, origin); var slot := HashGptr(d.gptr);
      && TableOk(Some(r))
      && r[slot] == [Entry(d, Local(task), origin)] + MatchedBucket(Buckets(t)[slot], d, task)
      && (forall i :: 0 <= i < DepHashSize && i != slot ==> r[i] == Buckets(t)[i])
      && TableTasks(Some(r)) == TableTasks(t) + {task}
  {
    var slot := HashGptr(d.gptr);
    var e := Entry(d, Local(task), origin);
    if t.None? {
      PushEntryFilesAtHead(t, e);
      assert MatchedBucket([], d, task) == [] by {
        assert StopIndex([], d, task) == 0;
      }
    } else {
      var b := t.value[slot];
      MatchedBucketKeepsEntries(b, d, task);
      ReplaceBucketKeepsTasks(t.value, slot, MatchedBucket(b, d, task));
      var m := Some(t.value[slot := MatchedBucket(b, d, task)]);
      PushEntryFilesAtHead(m, e);
      var r := LocallyFiled(t, d, task, origin);
      assert r[slot] == [r[slot][0]] + r[slot][1..];
    }
  }

  /** Every bucket of the table is in the order Matching.PhaseOrdered describes. */
  predicate TableOrdered(t: Option<seq<seq<Entry>>>) {
    forall i :: 0 <= i < |Buckets(t)| ==> PhaseOrdered(Buckets(t)[i])
  }

  /**
   * The local branch keeps the table in order when the dependency is filed
   * in phase order: no writer or read on its address is from a later phase.
   */
  lemma LocallyFiledKeepsOrder(t: Option<seq<seq<Entry>>>, d: Dep, task: Task, origin: int)
    requires TableOk(t) && TableOrdered(t) && FilesInOrder(Buckets(t)[HashGptr(d.gptr)], d)
    ensures TableOrdered(Some(LocallyFiled(t, d, task, origin)))
  {
    var slot := HashGptr(d.gptr);
    var b := Buckets(t)[slot];
    LocallyFiledAtHead(t, d, task, origin);
    MatchedBucketKeepsOrder(b, d, task, d);
    PushKeepsOrder(MatchedBucket(b, d, task), Entry(d, Local(task), origin));
  }

  /**
   * Filing a delayed input right before its producer, as the delayed
   * matcher does, keeps the table in order.
   */
  lemma DelayedFiledKeepsOrder(t: seq<seq<Entry>>, slot: nat, k: nat, e: Entry)
    requires slot < |t| && k < |t[slot]| && TableOrdered(Some(t))
    requires e.dep.kind == DelayedIn && DelayedProducer(t[slot][k], e.dep)
    ensures TableOrdered(Some(t[slot := InsertAt(t[slot], k, e)]))
  {
    assert Buckets(Some(t))[slot] == t[slot];
    DelayedInsertKeepsOrder(t[slot], k, e);
    var r := t[slot := InsertAt(t[slot], k, e)];
    assert forall i :: 0 <= i < |r| && i != slot ==> Buckets(Some(r))[i] == Buckets(Some(t))[i];
  }

  /**
   * What the copy-task requests of handle_copyin leave behind. The request
   * (dart_tasking_copyin_create_task) is made outside this model; its effect
   * is given as the parent's table after the first and after the second
   * request and the number of entries each takes from the free list.
   */
  datatype CopyinRequests = CopyinRequests(first: Option<seq<seq<Entry>>>, firstPops: nat,
                                           second: Option<seq<seq<Entry>>>, secondPops: nat)

  /** Both tables the requests leave are well formed and hold only tasks of `tasks`. */
  ghost predicate RequestsOk(c: CopyinRequests, tasks: set<Task>) {
    && TableOk(c.first) && TableTasks(c.first) <= tasks
    && TableOk(c.second) && TableTasks(c.second) <= tasks
  }

  /** The free list after `n` entries are taken from its head; an exhausted list stays empty. */
  function Popped(l: seq<Entry>, n: nat): seq<Entry> {
    if n <= |l| then l[n..] else []
  }

  /** How handle_task treats one dependency. */
  datatype Route = Skipped | DirectRoute | CopyinRoute | RemoteRoute | DelayedRoute | LocalRoute

  /** The dependency requests among a sequence of calls, in order. */
  function RemoteRequests(ev: seq<Event>): seq<Event> {
    if ev == [] then []
    else RemoteRequests(ev[..|ev| - 1]) + if ev[|ev| - 1].RemoteRequest? then [ev[|ev| - 1]] else []
  }

  /** The requests among two runs of calls are those of the first run followed by those of the second. */
  lemma {:induction false} RemoteRequestsAppend(a: seq<Event>, b: seq<Event>)
    ensures RemoteRequests(a + b) == RemoteRequests(a) + RemoteRequests(b)
  {
    if b != [] {
      assert (a + b)[..|a + b| - 1] == a + b[..|b| - 1];
      RemoteRequestsAppend(a, b[..|b| - 1]);
    } else {
      assert a + b == a;
    }
  }

  /** `s` is `base` with zero or more tasks prepended: a successor list that only gained edges. */
  predicate Prepended(s: seq<Task>, base: seq<Task>) {
    |base| <= |s| && s[|s| - |base|..] == base
  }

  /**
   * The engine's global state: the free list (every entry on it zeroed),
   * the deferred remote requests (newest first), the remotely blocked tasks
   * (newest first), the tasks deferred by the scheduler until the matching
   * of their phase is done (in the order they are popped; other code fills
   * that queue) and the calls made to collaborators.
   */
  class Engine {
    const myGuid: int       // the unit's global id (myguid)
    const phaseTask: int    // DART_PHASE_TASK
    const localSegId: int   // DART_TASKING_DATADEPS_LOCAL_SEGID
    const teamAll: int      // DART_TEAM_ALL
    var freeList: seq<Entry>
    var unhandledRemote: seq<Entry>
    var remoteBlocked: seq<Task>
    var localDeferred: seq<Task>
    var log: seq<Event>

    ghost predicate Valid()
      reads this`freeList
    {
      forall e :: e in freeList ==> e == Zeroed
    }

    /** The engine before any dependency is filed: all lists empty. */
    constructor (myGuid: int, phaseTask: int, localSegId: int, teamAll: int)
      ensures Valid()
      ensures this.myGuid == myGuid && this.phaseTask == phaseTask
      ensures this.localSegId == localSegId && this.teamAll == teamAll
      ensures freeList == [] && unhandledRemote == [] && remoteBlocked == [] && localDeferred == [] && log == []
    {
      this.myGuid, this.phaseTask := myGuid, phaseTask;
      this.localSegId, this.teamAll := localSegId, teamAll;
      freeList, unhandledRemote, remoteBlocked, localDeferred, log := [], [], [], [], [];
    }

    /**
     * dephash_allocate_elem: reuse the most recently recycled entry when
     * there is one (otherwise a fresh one is made) and fill in exactly the
     * dependency, task and origin given.
     */
    method AllocateElem(dep: Dep, task: TaskRef, origin: int) returns (e: Entry)
      requires Valid() && task != NoTask
      modifies this`freeList
      ensures Valid()
      ensures e == Entry(dep, task, origin)
      ensures freeList == if old(freeList) == [] then [] else old(freeList)[1..]
    {
      var elem := Zeroed;
      if freeList != [] {
        elem := freeList[0];
        assert elem in freeList;
        assert forall x :: x in freeList[1..] ==> x in freeList;
        freeList := freeList[1..];
      }
      assert elem.task == NoTask;
      e := elem.(task := task, dep := dep, origin := origin);
    }

    /** dephash_recycle_elem: the entry is zeroed and pushed onto the free list. */
    method RecycleElem(e: Entry)
      requires Valid()
      modifies this`freeList
      ensures Valid() && freeList == [Zeroed] + old(freeList)
    {
      freeList := [Zeroed] + freeList;
    }

    /** free_dephash_list: every entry of a chain is recycled, head first. */
    method FreeEntries(list: seq<Entry>)
      requires Valid()
      modifies this`freeList
      ensures Valid() && freeList == Zeroes(|list|) + old(freeList)
    {
      var i := 0;
      while i < |list|
        invariant 0 <= i <= |list|
        invariant Valid() && freeList == Zeroes(i) + old(freeList)
      {
        RecycleElem(list[i]);
        ZeroesAdd(1, i);
        i := i + 1;
      }
    }

    /**
     * dephash_add_local: a new entry for `task`'s dependency is pushed at
     * the head of its bucket in the parent's table, which is allocated first
     * if needed.
     */
    method AddLocal(dep: Dep, task: Task)
      requires Valid() && task.parent != null && TableOk(task.parent.localDeps)
      modifies this`freeList, task.parent`localDeps
      ensures Valid() && freeList == if old(freeList) == [] then [] else old(freeList)[1..]
      ensures task.parent.localDeps == Some(PushEntry(old(task.parent.localDeps), Entry(dep, Local(task), myGuid)))
      ensures TableOk(task.parent.localDeps)
    {
      var elem := AllocateElem(dep, Local(task), myGuid);
      var parent := task.parent;
      var table := if parent.localDeps.None? then EmptyTable() else parent.localDeps.value;
      var slot := HashGptr(dep.gptr);
      PushEntryFilesAtHead(parent.localDeps, elem);
      parent.localDeps := Some(table[slot := [elem] + table[slot]]);
    }

    /**
     * The filing step of match_delayed_local_datadep: a new entry for
     * `task`'s dependency is inserted right before index `k` of bucket
     * `slot` of the parent's table. A non-writing entry keeps the writers of
     * the bucket in phase order.
     */
    method FileBefore(dep: Dep, task: Task, slot: nat, k: nat)
      requires Valid() && task.parent != null && TableOk(task.parent.localDeps) && task.parent.localDeps.Some?
      requires slot < DepHashSize && k <= |task.parent.localDeps.value[slot]|
      modifies this`freeList, task.parent`localDeps
      ensures Valid() && freeList == if old(freeList) == [] then [] else old(freeList)[1..]
      ensures var t0 := old(task.parent.localDeps).value;
        task.parent.localDeps == Some(t0[slot := InsertAt(t0[slot], k, Entry(dep, Local(task), myGuid))])
      ensures TableOk(task.parent.localDeps)
      ensures TableTasks(task.parent.localDeps) == TableTasks(old(task.parent.localDeps)) + {task}
      ensures var b := old(task.parent.localDeps).value[slot];
        dep.kind == DelayedIn && k < |b| && DelayedProducer(b[k], dep) && TableOrdered(old(task.parent.localDeps)) ==>
          TableOrdered(task.parent.localDeps)
    {
      var parent := task.parent;
      var table := parent.localDeps.value;
      var e := AllocateElem(dep, Local(task), myGuid);
      InsertKeepsTable(table, slot, k, e);
      if dep.kind == DelayedIn && k < |table[slot]| && DelayedProducer(table[slot][k], dep) && TableOrdered(parent.localDeps) {
        DelayedFiledKeepsOrder(table, slot, k, e);
      }
      parent.localDeps := Some(table[slot := InsertAt(table[slot], k, e)]);
    }

    /**
     * The delayed matching of MatchDelayed in bucket `slot` of the parent's
     * table. Once the producer `k` is found (see Matching.DelayedIndex) the
     * edges DelayedEdges describes are added and, unless the writer `n` of a
     * later phase (see Matching.NextOut) now waits for `task`, the
     * dependency is filed with its own kind right before the producer.
     * Without a table or a producer nothing changes. The source asserts
     * that `task` has no entry of its own on the address up to the producer
     * (`own` when it has: nothing changes) and that the later writer is
     * still active (when it is not, only the producer edge is added); a
     * failed assertion stops the program, here the result Aborted. The
     * edges are added at index `at` with the later writer `later`. `tasks`
     * holds `task` and every task of the table.
     */
    method MatchDelayedInSlot(dep: Dep, task: Task, slot: nat, ghost tasks: set<Task>)
      returns (r: Ret, ghost b: seq<Entry>, ghost k: nat, ghost n: int, ghost own: bool,
               ghost at: nat, ghost later: int, ghost waits: bool)
      requires Valid() && slot < DepHashSize && task.parent != null && task in tasks
      requires TableOk(task.parent.localDeps) && TableTasks(task.parent.localDeps) <= tasks
      modifies this`freeList, task.parent`localDeps, tasks`unresolvedDeps, tasks`successor
      ensures b == Buckets(old(task.parent.localDeps))[slot] && k == DelayedIndex(b, dep) && n == NextOut(b, dep, k)
      ensures forall j :: 0 <= j < |b| ==> b[j].task.Local?
      ensures own == !NoOwnEntryBefore(b, dep, task, if k < |b| then k + 1 else k)
      ensures r == if own || (k < |b| && n >= 0 && !IsActive(b[n].task.task.state)) then Aborted else Ok
      ensures at == (if own then |b| else k) && later == (if r == Aborted then -1 else n) && later < at <= |b|
      ensures waits == (at < |b| && IsActive(b[at].task.task.state))
      ensures Valid() && TableOk(task.parent.localDeps) && TableTasks(task.parent.localDeps) <= tasks
      ensures task.parent.localDeps ==
        if r == Ok && k < |b| && n < 0
        then Some(old(task.parent.localDeps).value[slot := InsertAt(b, k, Entry(dep, Local(task), myGuid))])
        else old(task.parent.localDeps)
      ensures freeList == if r == Ok && k < |b| && n < 0 && old(freeList) != [] then old(freeList)[1..] else old(freeList)
      ensures forall t {:trigger t in tasks} :: t in tasks ==>
        && t.unresolvedDeps == old(t.unresolvedDeps) + DelayedGain(b, at, later, waits, task, t)
        && t.successor == DelayedPushed(b, at, later, waits, task, t) + old(t.successor)
      ensures dep.kind == DelayedIn && TableOrdered(old(task.parent.localDeps)) ==> TableOrdered(task.parent.localDeps)
    {
      r := Ok;
      var parent := task.parent;
      b := Buckets(parent.localDeps)[slot];
      k, n := DelayedIndex(b, dep), NextOut(b, dep, DelayedIndex(b, dep));
      own, at, later, waits := false, |b|, -1, false;
      if parent.localDeps.None? {
        return;
      }
      var table := parent.localDeps.value;
      var bucket := table[slot];
      BucketEntriesInTable(parent.localDeps, slot);
      var found, next, mine := ScanDelayed(bucket, dep, task);
      if mine {
        r, own := Aborted, true;
        return;
      }
      var ok;
      ok, waits := DelayedEdges(bucket, found, next, task, tasks);
      at, later := found, if ok then next else -1;
      if !ok {
        r := Aborted;
      } else if found < |bucket| && next < 0 {
        FileBefore(dep, task, slot, found);
      }
    }

    /**
     * dart_tasking_datadeps_match_delayed_local_datadep: the delayed
     * matching of MatchDelayedInSlot in the bucket `dep`'s address hashes to.
     */
    method MatchDelayed(dep: Dep, task: Task, ghost tasks: set<Task>)
      returns (r: Ret, ghost b: seq<Entry>, ghost k: nat, ghost n: int, ghost own: bool,
               ghost at: nat, ghost later: int, ghost waits: bool)
      requires Valid() && task.parent != null && task in tasks
      requires TableOk(task.parent.localDeps) && TableTasks(task.parent.localDeps) <= tasks
      modifies this`freeList, task.parent`localDeps, tasks`unresolvedDeps, tasks`successor
      ensures b == Buckets(old(task.parent.localDeps))[HashGptr(dep.gptr)]
      ensures k == DelayedIndex(b, dep) && n == NextOut(b, dep, k)
      ensures forall j :: 0 <= j < |b| ==> b[j].task.Local?
      ensures own == !NoOwnEntryBefore(b, dep, task, if k < |b| then k + 1 else k)
      ensures r == if own || (k < |b| && n >= 0 && !IsActive(b[n].task.task.state)) then Aborted else Ok
      ensures at == (if own then |b| else k) && later == (if r == Aborted then -1 else n) && later < at <= |b|
      ensures waits == (at < |b| && IsActive(b[at].task.task.state))
      ensures Valid() && TableOk(task.parent.localDeps) && TableTasks(task.parent.localDeps) <= tasks
      ensures task.parent.localDeps ==
        if r == Ok && k < |b| && n < 0
        then Some(old(task.parent.localDeps).value[HashGptr(dep.gptr) := InsertAt(b, k, Entry(dep, Local(task), myGuid))])
        else old(task.parent.localDeps)
      ensures freeList == if r == Ok && k < |b| && n < 0 && old(freeList) != [] then old(freeList)[1..] else old(freeList)
      ensures forall t {:trigger t in tasks} :: t in tasks ==>
        && t.unresolvedDeps == old(t.unresolvedDeps) + DelayedGain(b, at, later, waits, task, t)
        && t.successor == DelayedPushed(b, at, later, waits, task, t) + old(t.successor)
      ensures dep.kind == DelayedIn && TableOrdered(old(task.parent.localDeps)) ==> TableOrdered(task.parent.localDeps)
    {
      r, b, k, n, own, at, later, waits := MatchDelayedInSlot(dep, task, HashGptr(dep.gptr), tasks);
    }

    /** The pointer handle_copyin looks up and files: the destination address on this unit's local segment. */
    function CopyinDest(dep: Dep): GPtr {
      GPtr(myGuid, localSegId, 0, 0, dep.copyinDest)
    }

    /**
     * One round of handle_copyin's loop: when the scan of the destination's
     * bucket (see Matching.CopyinIndex) finds the task `p` already copying
     * the data in the dependency's phase, `task` waits for it (no activity
     * check is made) and an input dependency on the destination is filed
     * for `task`; otherwise nothing changes. `tasks` holds `task` and every
     * task of the table.
     */
    method CopyinRound(dep: Dep, task: Task, ghost tasks: set<Task>) returns (found: bool, ghost p: Task?)
      requires Valid() && task.parent != null && task in tasks
      requires TableOk(task.parent.localDeps) && TableTasks(task.parent.localDeps) <= tasks
      modifies this`freeList, task.parent`localDeps, tasks`unresolvedDeps, tasks`successor
      ensures p == CopyinProducer(old(task.parent.localDeps), HashGptr(CopyinDest(dep)), dep.copyinDest, dep.phase)
      ensures found == (p != null) && (p != null ==> p in tasks)
      ensures Valid() && TableOk(task.parent.localDeps) && TableTasks(task.parent.localDeps) <= tasks
      ensures !found ==>
        && task.parent.localDeps == old(task.parent.localDeps) && freeList == old(freeList)
        && forall t {:trigger t in tasks} :: t in tasks ==>
             t.unresolvedDeps == old(t.unresolvedDeps) && t.successor == old(t.successor)
      ensures found ==>
        && task.parent.localDeps ==
             Some(PushEntry(old(task.parent.localDeps), Entry(Dep(In, CopyinDest(dep), dep.phase, null, 0), Local(task), myGuid)))
        && freeList == (if old(freeList) != [] then old(freeList)[1..] else old(freeList))
        && forall t {:trigger t in tasks} :: t in tasks ==>
             && t.unresolvedDeps == old(t.unresolvedDeps) + (if t == task then 1 else 0)
             && t.successor == (if t == p then [task] else []) + old(t.successor)
    {
      found, p := false, null;
      var parent := task.parent;
      var dest := CopyinDest(dep);
      var slot := HashGptr(dest);
      if parent.localDeps.None? {
        return;
      }
      var b := parent.localDeps.value[slot];
      BucketEntriesInTable(parent.localDeps, slot);
      var k := ScanCopyin(b, dep.copyinDest, dep.phase);
      if k < |b| && !(b[k].dep.phase < dep.phase) {
        var elemTask := b[k].task.task;
        WaitFor(elemTask, task, tasks);
        PushEntryFilesAtHead(parent.localDeps, Entry(Dep(In, dest, dep.phase, null, 0), Local(task), myGuid));
        AddLocal(Dep(In, dest, dep.phase, null, 0), task);
        found, p := true, elemTask;
      }
    }

    /**
     * One copy-task request of handle_copyin (the call to
     * dart_tasking_copyin_create_task): the request is logged, and the
     * parent's table becomes `table` and the free list loses its first
     * `pops` entries, as the request's own filing leaves them.
     */
    method RequestCopy(dep: Dep, task: Task, table: Option<seq<seq<Entry>>>, pops: nat)
      requires Valid() && task.parent != null
      modifies this`log, this`freeList, task.parent`localDeps
      ensures Valid()
      ensures log == old(log) + [CopyinRequested(dep, CopyinDest(dep), task)]
      ensures task.parent.localDeps == table && freeList == Popped(old(freeList), pops)
    {
      log := log + [CopyinRequested(dep, CopyinDest(dep), task)];
      task.parent.localDeps := table;
      assert forall e :: e in Popped(freeList, pops) ==> e in freeList;
      freeList := Popped(freeList, pops);
    }

    /**
     * The second half of handle_copyin, after a first round that found no
     * copying task: the creation of one is requested, which leaves the
     * table and free list as `c` says, and a second round follows on that
     * table; when it finds nothing either, the creation is requested again,
     * again with the effect `c` gives.
     */
    method CopyinRetry(dep: Dep, task: Task, c: CopyinRequests, ghost tasks: set<Task>)
      returns (ghost p: Task?)
      requires Valid() && task.parent != null && task in tasks
      requires RequestsOk(c, tasks)
      modifies this`log, this`freeList, task.parent`localDeps, tasks`unresolvedDeps, tasks`successor
      ensures p == CopyinProducer(c.first, HashGptr(CopyinDest(dep)), dep.copyinDest, dep.phase)
      ensures Valid() && TableOk(task.parent.localDeps) && TableTasks(task.parent.localDeps) <= tasks
      ensures var request := CopyinRequested(dep, CopyinDest(dep), task);
        log == old(log) + if p != null then [request] else [request, request]
      ensures p == null ==>
        && task.parent.localDeps == c.second
        && freeList == Popped(Popped(old(freeList), c.firstPops), c.secondPops)
        && forall t {:trigger t in tasks} :: t in tasks ==>
             t.unresolvedDeps == old(t.unresolvedDeps) && t.successor == old(t.successor)
      ensures p != null ==>
        && task.parent.localDeps ==
             Some(PushEntry(c.first, Entry(Dep(In, CopyinDest(dep), dep.phase, null, 0), Local(task), myGuid)))
        && freeList == Popped(Popped(old(freeList), c.firstPops), 1)
        && forall t {:trigger t in tasks} :: t in tasks ==>
             && t.unresolvedDeps == old(t.unresolvedDeps) + (if t == task then 1 else 0)
             && t.successor == (if t == p then [task] else []) + old(t.successor)
    {
      RequestCopy(dep, task, c.first, c.firstPops);
      var found;
      found, p := CopyinRound(dep, task, tasks);
      if !found {
        RequestCopy(dep, task, c.second, c.secondPops);
      }
    }

    /**
     * dart_tasking_datadeps_handle_copyin: a first round (see CopyinRound)
     * on the table as it is; when it finds no copying task, the creation of
     * one is requested and a second round follows on the table the request
     * leaves, and a second request when that one finds nothing either (see
     * CopyinRetry; `c` gives the requests' effects).
     */
    method HandleCopyin(dep: Dep, task: Task, c: CopyinRequests, ghost tasks: set<Task>)
      returns (r: Ret, ghost p1: Task?, ghost p2: Task?, ghost p: Task?)
      requires Valid() && task.parent != null && task in tasks
      requires TableOk(task.parent.localDeps) && TableTasks(task.parent.localDeps) <= tasks
      requires RequestsOk(c, tasks)
      modifies this`log, this`freeList, task.parent`localDeps, tasks`unresolvedDeps, tasks`successor
      ensures r == Ok && Valid() && TableOk(task.parent.localDeps) && TableTasks(task.parent.localDeps) <= tasks
      ensures var slot := HashGptr(CopyinDest(dep));
        && p1 == CopyinProducer(old(task.parent.localDeps), slot, dep.copyinDest, dep.phase)
        && p2 == (if p1 != null then null else CopyinProducer(c.first, slot, dep.copyinDest, dep.phase))
        && p == if p1 != null then p1 else p2
      ensures var request := CopyinRequested(dep, CopyinDest(dep), task);
        log == old(log) + if p1 != null then [] else if p2 != null then [request] else [request, request]
      ensures var e := Entry(Dep(In, CopyinDest(dep), dep.phase, null, 0), Local(task), myGuid);
        task.parent.localDeps ==
          if p1 != null then Some(PushEntry(old(task.parent.localDeps), e))
          else if p2 != null then Some(PushEntry(c.first, e))
          else c.second
      ensures freeList ==
        if p1 != null then Popped(old(freeList), 1)
        else if p2 != null then Popped(Popped(old(freeList), c.firstPops), 1)
        else Popped(Popped(old(freeList), c.firstPops), c.secondPops)
      ensures p == null ==> forall t {:trigger t in tasks} :: t in tasks ==>
        t.unresolvedDeps == old(t.unresolvedDeps) && t.successor == old(t.successor)
      ensures p != null ==> forall t {:trigger t in tasks} :: t in tasks ==>
        && t.unresolvedDeps == old(t.unresolvedDeps) + (if t == task then 1 else 0)
        && t.successor == (if t == p then [task] else []) + old(t.successor)
    {
      r, p2 := Ok, null;
      var found;
      found, p1 := CopyinRound(dep, task, tasks);
      p := p1;
      if !found {
        p2 := CopyinRetry(dep, task, c, tasks);
        p := p2;
      }
    }

    /**
     * The remote branch of handle_task: for a task whose parent is the root
     * task the dependency is requested from its owner and the remote
     * counter goes up; the task joins the remotely blocked tasks when the
     * counter has just become 1. Remote dependencies of nested tasks are
     * ignored.
     */
    method RequestRemote(dep: Dep, task: Task)
      requires task.parent != null
      modifies this`log, this`remoteBlocked, task`unresolvedRemoteDeps
      ensures task.parent.state == Root ==>
        && log == old(log) + [RemoteRequest(dep, task)]
        && task.unresolvedRemoteDeps == old(task.unresolvedRemoteDeps) + 1
        && remoteBlocked == if task.unresolvedRemoteDeps == 1 then [task] + old(remoteBlocked) else old(remoteBlocked)
      ensures task.parent.state != Root ==>
        && log == old(log) && remoteBlocked == old(remoteBlocked)
        && task.unresolvedRemoteDeps == old(task.unresolvedRemoteDeps)
    {
      if task.parent.state == Root {
        log := log + [RemoteRequest(dep, task)];
        task.unresolvedRemoteDeps := task.unresolvedRemoteDeps + 1;
        if task.unresolvedRemoteDeps == 1 {
          remoteBlocked := [task] + remoteBlocked;
        }
      }
    }

    /**
     * The local branch of handle_task for a dependency that is not a
     * delayed input: the immediate matching (see MatchLocal) followed by
     * dephash_add_local, which files the dependency at the head of its
     * bucket in the matched table. `tasks` holds `task` and every task of
     * the table.
     */
    method FileLocal(dep: Dep, task: Task, ghost tasks: set<Task>) returns (ghost edges: set<Task>)
      requires Valid() && task.parent != null && task in tasks
      requires TableOk(task.parent.localDeps) && TableTasks(task.parent.localDeps) <= tasks
      modifies this`freeList, task.parent`localDeps, task`unresolvedDeps, tasks`successor
      ensures Valid() && freeList == if old(freeList) == [] then [] else old(freeList)[1..]
      ensures task.parent.localDeps == Some(LocallyFiled(old(task.parent.localDeps), dep, task, myGuid))
      ensures TableOk(task.parent.localDeps)
      ensures TableTasks(task.parent.localDeps) == TableTasks(old(task.parent.localDeps)) + {task}
      ensures edges <= tasks
      ensures forall t :: t in tasks ==>
        (t in edges <==>
          && t in LocalProducers(Buckets(old(task.parent.localDeps))[HashGptr(dep.gptr)], dep, task)
          && IsActive(t.state) && task !in old(t.successor))
      ensures task.unresolvedDeps == old(task.unresolvedDeps) + |edges|
      ensures forall t :: t in tasks ==>
        t.successor == if t in edges then [task] + old(t.successor) else old(t.successor)
      ensures TableOrdered(old(task.parent.localDeps)) ==>
        FilesInOrder(Buckets(old(task.parent.localDeps))[HashGptr(dep.gptr)], dep) ==> TableOrdered(task.parent.localDeps)
    {
      if TableOrdered(task.parent.localDeps) && FilesInOrder(Buckets(task.parent.localDeps)[HashGptr(dep.gptr)], dep) {
        LocallyFiledKeepsOrder(task.parent.localDeps, dep, task, myGuid);
      }
      var r;
      r, edges := MatchLocal(dep, task, tasks);
      PushEntryFilesAtHead(task.parent.localDeps, Entry(dep, Local(task), myGuid));
      AddLocal(dep, task);
    }

    /** The phase handle_task gives a dependency: the task's own for DART_PHASE_TASK. */
    function Resolve(dep: Dep, taskPhase: int): Dep {
      if dep.phase == phaseTask then dep.(phase := taskPhase) else dep
    }

    /**
     * How handle_task routes a dependency, where `l2g` is
     * dart_team_unit_l2g: the pointer's unit is translated to a global id
     * unless its team is DART_TEAM_ALL, and a pointer to another unit makes
     * a remote dependency.
     */
    function RouteOf(dep: Dep, l2g: (int, int) -> int): Route {
      var guid := if dep.gptr.teamId != teamAll then l2g(dep.gptr.teamId, dep.gptr.unitId) else dep.gptr.unitId;
      if dep.kind == Ignore then Skipped
      else if dep.kind == Direct then DirectRoute
      else if dep.kind == CopyIn then CopyinRoute
      else if guid != myGuid then RemoteRoute
      else if dep.kind == DelayedIn then DelayedRoute
      else LocalRoute
    }

    /** The requests handle_task sends for the remote dependencies among `ds`, in order. */
    function Requests(ds: seq<Dep>, task: Task, taskPhase: int, l2g: (int, int) -> int): seq<Event> {
      if ds == [] then []
      else
        var d := ds[|ds| - 1];
        Requests(ds[..|ds| - 1], task, taskPhase, l2g)
          + if RouteOf(d, l2g) == RemoteRoute then [RemoteRequest(Resolve(d, taskPhase), task)] else []
    }

    /**
     * The copy-in branch of handle_task (see HandleCopyin), summarised: the
     * calls it makes are copy-task requests only, and it only adds edges.
     */
    method CopyinBranch(d: Dep, task: Task, copyins: CopyinRequests, ghost tasks: set<Task>)
      returns (ghost events: seq<Event>)
      requires Valid() && task.parent != null && task in tasks
      requires TableOk(task.parent.localDeps) && TableTasks(task.parent.localDeps) <= tasks
      requires RequestsOk(copyins, tasks)
      modifies this`log, this`freeList, task.parent`localDeps, tasks`unresolvedDeps, tasks`successor
      ensures Valid() && TableOk(task.parent.localDeps) && TableTasks(task.parent.localDeps) <= tasks
      ensures log == old(log) + events && RemoteRequests(events) == []
      ensures forall e :: e in events ==> e == CopyinRequested(d, CopyinDest(d), task)
      ensures forall t {:trigger t in tasks} :: t in tasks ==>
        old(t.unresolvedDeps) <= t.unresolvedDeps && Prepended(t.successor, old(t.successor))
    {
      var r;
      ghost var p1, p2, p;
      r, p1, p2, p := HandleCopyin(d, task, copyins, tasks);
      var request := CopyinRequested(d, CopyinDest(d), task);
      events := if p1 != null then [] else if p2 != null then [request] else [request, request];
      assert RemoteRequests([request]) == [] by {
        assert [request][..0] == [];
      }
      assert RemoteRequests([request, request]) == [] by {
        assert [request, request][..1] == [request];
      }
    }

    /**
     * The local branch of handle_task, with the pointer already localized:
     * MatchDelayed for a delayed input (which may abort), FileLocal for
     * every other kind. Either only adds edges.
     */
    method LocalBranch(d: Dep, task: Task, ghost tasks: set<Task>) returns (r: Ret)
      requires Valid() && task.parent != null && task in tasks
      requires TableOk(task.parent.localDeps) && TableTasks(task.parent.localDeps) <= tasks
      modifies this`freeList, task.parent`localDeps, tasks`unresolvedDeps, tasks`successor
      ensures Valid() && TableOk(task.parent.localDeps) && TableTasks(task.parent.localDeps) <= tasks
      ensures r == Ok || (r == Aborted && d.kind == DelayedIn)
      ensures forall t {:trigger t in tasks} :: t in tasks ==>
        old(t.unresolvedDeps) <= t.unresolvedDeps && Prepended(t.successor, old(t.successor))
      ensures d.kind != DelayedIn ==>
        task.parent.localDeps == Some(LocallyFiled(old(task.parent.localDeps), d, task, myGuid))
      ensures TableOrdered(old(task.parent.localDeps)) ==>
        d.kind == DelayedIn || FilesInOrder(Buckets(old(task.parent.localDeps))[HashGptr(d.gptr)], d) ==>
          TableOrdered(task.parent.localDeps)
    {
      r := Ok;
      if d.kind == DelayedIn {
        ghost var b, k, n, own, at, later, waits;
        r, b, k, n, own, at, later, waits := MatchDelayed(d, task, tasks);
      } else {
        ghost var edges := FileLocal(d, task, tasks);
      }
    }

    /** The direct branch of handle_task (see HandleLocalDirect), summarised: it only adds edges. */
    method DirectBranch(d: Dep, task: Task, ghost tasks: set<Task>)
      requires task in tasks && (d.task != null ==> d.task in tasks)
      modifies tasks`unresolvedDeps, tasks`successor
      ensures forall t {:trigger t in tasks} :: t in tasks ==>
        old(t.unresolvedDeps) <= t.unresolvedDeps && Prepended(t.successor, old(t.successor))
    {
      HandleLocalDirect(d, task);
    }

    /**
     * The remote branch of handle_task (see RequestRemote), with the calls
     * it makes as `events`: one request when the parent is the root task.
     */
    method RemoteBranch(d: Dep, task: Task) returns (ghost events: seq<Event>)
      requires task.parent != null
      modifies this`log, this`remoteBlocked, task`unresolvedRemoteDeps
      ensures log == old(log) + events
      ensures RemoteRequests(events) == if task.parent.state == Root then [RemoteRequest(d, task)] else []
      ensures task.parent.state != Root ==> events == []
      ensures if task.parent.state == Root then
          && task.unresolvedRemoteDeps == old(task.unresolvedRemoteDeps) + 1
          && remoteBlocked == if task.unresolvedRemoteDeps == 1 then [task] + old(remoteBlocked) else old(remoteBlocked)
        else
          && task.unresolvedRemoteDeps == old(task.unresolvedRemoteDeps)
          && remoteBlocked == old(remoteBlocked)
    {
      RequestRemote(d, task);
      events := if task.parent.state == Root then [RemoteRequest(d, task)] else [];
      assert RemoteRequests([RemoteRequest(d, task)]) == [RemoteRequest(d, task)] by {
        assert [RemoteRequest(d, task)][..0] == [];
      }
    }

    /**
     * One dependency of handle_task: ignored dependencies change nothing;
     * the phase is resolved (see Resolve) and the dependency routed (see
     * RouteOf) to HandleLocalDirect, CopyinBranch, RequestRemote or, with
     * the pointer translated by `localize`
     * (dart_tasking_datadeps_localize_gptr), LocalBranch. `copyins` is what
     * the copy-task requests leave (see HandleCopyin). The calls
     * made are `events`. No branch takes an edge away: counters only grow
     * and successor lists only gain tasks at their head. Only the delayed
     * matching can abort.
     */
    method HandleDep(dep: Dep, task: Task, l2g: (int, int) -> int, localize: GPtr -> GPtr,
                     copyins: CopyinRequests, ghost tasks: set<Task>)
      returns (r: Ret, ghost events: seq<Event>)
      requires Valid() && task.parent != null && task in tasks
      requires TableOk(task.parent.localDeps) && TableTasks(task.parent.localDeps) <= tasks
      requires RequestsOk(copyins, tasks)
      requires dep.kind == Direct && dep.task != null ==> dep.task in tasks
      modifies this`log, this`freeList, this`remoteBlocked, task.parent`localDeps
      modifies task`unresolvedRemoteDeps, tasks`unresolvedDeps, tasks`successor
      ensures Valid() && TableOk(task.parent.localDeps) && TableTasks(task.parent.localDeps) <= tasks
      ensures r == Ok || (r == Aborted && RouteOf(dep, l2g) == DelayedRoute)
      ensures log == old(log) + events
      ensures RemoteRequests(events) ==
        if RouteOf(dep, l2g) == RemoteRoute && task.parent.state == Root
        then [RemoteRequest(Resolve(dep, task.phase), task)] else []
      ensures if RouteOf(dep, l2g) == RemoteRoute && task.parent.state == Root then
          && task.unresolvedRemoteDeps == old(task.unresolvedRemoteDeps) + 1
          && remoteBlocked == if task.unresolvedRemoteDeps == 1 then [task] + old(remoteBlocked) else old(remoteBlocked)
        else
          && task.unresolvedRemoteDeps == old(task.unresolvedRemoteDeps)
          && remoteBlocked == old(remoteBlocked)
      ensures forall t {:trigger t in tasks} :: t in tasks ==>
        old(t.unresolvedDeps) <= t.unresolvedDeps && Prepended(t.successor, old(t.successor))
      ensures RouteOf(dep, l2g) == Skipped || (RouteOf(dep, l2g) == RemoteRoute && task.parent.state != Root) ==>
        && task.parent.localDeps == old(task.parent.localDeps) && freeList == old(freeList) && events == []
        && forall t {:trigger t in tasks} :: t in tasks ==>
             t.unresolvedDeps == old(t.unresolvedDeps) && t.successor == old(t.successor)
      ensures RouteOf(dep, l2g) == LocalRoute ==>
        var d := Resolve(dep, task.phase).(gptr := localize(dep.gptr));
        task.parent.localDeps == Some(LocallyFiled(old(task.parent.localDeps), d, task, myGuid))
    {
      r, events := Ok, [];
      if dep.kind == Ignore {
        return;
      }
      var d := Resolve(dep, task.phase);
      var route := RouteOf(d, l2g);
      assert route == RouteOf(dep, l2g);
      if route == DirectRoute {
        DirectBranch(d, task, tasks);
      } else if route == CopyinRoute {
        events := CopyinBranch(d, task, copyins, tasks);
      } else if route == RemoteRoute {
        events := RemoteBranch(d, task);
      } else {
        r := LocalBranch(d.(gptr := localize(d.gptr)), task, tasks);
      }
    }

    /**
     * What handle_task has done after its first `n` dependencies, from a
     * log `log0`, a remote counter `c0` and remotely blocked tasks
     * `blocked0`: the calls made are `events`, among them one request per
     * remote dependency when the parent is the root task (see Requests),
     * the remote counter has grown by their number, and the task has
     * joined the remotely blocked tasks exactly when that counter went from
     * 0 to 1.
     */
    ghost predicate Progress(task: Task, deps: seq<Dep>, n: nat, l2g: (int, int) -> int,
                             log0: seq<Event>, c0: int, blocked0: seq<Task>, events: seq<Event>)
      requires task.parent != null && n <= |deps|
      reads this`log, this`remoteBlocked, task`unresolvedRemoteDeps, task`phase, task`parent, task.parent`state
    {
      var sent := if task.parent.state == Root then Requests(deps[..n], task, task.phase, l2g) else [];
      && log == log0 + events
      && RemoteRequests(events) == sent
      && task.unresolvedRemoteDeps == c0 + |sent|
      && remoteBlocked == if c0 <= 0 < c0 + |sent| then [task] + blocked0 else blocked0
    }

    /** One round of handle_task's loop: dependency `i` (see HandleDep) extends the Progress made so far. */
    method HandleNext(task: Task, deps: seq<Dep>, i: nat, l2g: (int, int) -> int, localize: GPtr -> GPtr,
                      copyins: CopyinRequests, ghost tasks: set<Task>,
                      ghost log0: seq<Event>, ghost c0: int, ghost blocked0: seq<Task>, ghost events: seq<Event>)
      returns (r: Ret, ghost events': seq<Event>)
      requires Valid() && task.parent != null && task in tasks && i < |deps|
      requires TableOk(task.parent.localDeps) && TableTasks(task.parent.localDeps) <= tasks
      requires RequestsOk(copyins, tasks)
      requires deps[i].kind == Direct && deps[i].task != null ==> deps[i].task in tasks
      requires Progress(task, deps, i, l2g, log0, c0, blocked0, events)
      modifies this`log, this`freeList, this`remoteBlocked, task.parent`localDeps
      modifies task`unresolvedRemoteDeps, tasks`unresolvedDeps, tasks`successor
      ensures Valid() && TableOk(task.parent.localDeps) && TableTasks(task.parent.localDeps) <= tasks
      ensures r == Ok || (r == Aborted && RouteOf(deps[i], l2g) == DelayedRoute)
      ensures Progress(task, deps, i + 1, l2g, log0, c0, blocked0, events')
    {
      ghost var root := task.parent.state == Root;
      ghost var sent := if root then Requests(deps[..i], task, task.phase, l2g) else [];
      ghost var x := if RouteOf(deps[i], l2g) == RemoteRoute && root
        then [RemoteRequest(Resolve(deps[i], task.phase), task)] else [];
      RequestsStep(deps, i, task, task.phase, l2g);
      assert (if root then Requests(deps[..i + 1], task, task.phase, l2g) else []) == sent + x;
      ghost var u, bl := task.unresolvedRemoteDeps, remoteBlocked;
      assert log == log0 + events;
      ghost var ev;
      r, ev := HandleDep(deps[i], task, l2g, localize, copyins, tasks);
      assert task.phase == old(task.phase) && task.parent.state == old(task.parent.state);
      RemoteRequestsAppend(events, ev);
      events' := events + ev;
      SentStep(c0, sent, x, u, task.unresolvedRemoteDeps, bl, remoteBlocked, blocked0, task);
      assert log == log0 + (events + ev);
    }

    /**
     * The remote counter and the remotely blocked tasks after one more
     * round: one more request (`x` of length 1) adds one to the counter and
     * the task to the list when the counter has just become 1; none (`x`
     * empty) changes nothing.
     */
    lemma SentStep(c0: int, sent: seq<Event>, x: seq<Event>, u: int, u': int,
                   bl: seq<Task>, bl': seq<Task>, blocked0: seq<Task>, task: Task)
      requires |x| <= 1 && u == c0 + |sent|
      requires bl == if c0 <= 0 < c0 + |sent| then [task] + blocked0 else blocked0
      requires |x| == 1 ==> u' == u + 1 && bl' == if u' == 1 then [task] + bl else bl
      requires |x| == 0 ==> u' == u && bl' == bl
      ensures u' == c0 + |sent + x|
      ensures bl' == if c0 <= 0 < c0 + |sent + x| then [task] + blocked0 else blocked0
    {
    }

    /** The requests for one more dependency are those sent so far followed by the new one's. */
    lemma RequestsStep(deps: seq<Dep>, i: nat, task: Task, taskPhase: int, l2g: (int, int) -> int)
      requires i < |deps|
      ensures Requests(deps[..i + 1], task, taskPhase, l2g) ==
        Requests(deps[..i], task, taskPhase, l2g)
          + if RouteOf(deps[i], l2g) == RemoteRoute then [RemoteRequest(Resolve(deps[i], taskPhase), task)] else []
    {
      assert deps[..i + 1][..i] == deps[..i];
    }

    /**
     * dart_tasking_datadeps_handle_task: the dependencies are handled in
     * order (see HandleDep); `copyins[i]` is what the copy-task requests
     * leave for dependency i. The run stops at a failed assertion, after
     * `done` dependencies; otherwise all are handled. A task of the root
     * task sends one request per remote dependency, in order (see
     * Requests), its remote counter grows by their number, and it joins the
     * remotely blocked tasks exactly when that counter goes from 0 to 1;
     * nested tasks send none. The calls made are `events`.
     */
    method HandleTask(task: Task, deps: seq<Dep>, l2g: (int, int) -> int, localize: GPtr -> GPtr,
                      copyins: seq<CopyinRequests>, ghost tasks: set<Task>)
      returns (r: Ret, ghost done: nat, ghost events: seq<Event>)
      requires Valid() && task.parent != null && task in tasks
      requires TableOk(task.parent.localDeps) && TableTasks(task.parent.localDeps) <= tasks
      requires |copyins| == |deps|
      requires forall i :: 0 <= i < |deps| ==> RequestsOk(copyins[i], tasks)
      requires forall i :: 0 <= i < |deps| && deps[i].kind == Direct && deps[i].task != null ==> deps[i].task in tasks
      modifies this`log, this`freeList, this`remoteBlocked, task.parent`localDeps
      modifies task`unresolvedRemoteDeps, tasks`unresolvedDeps, tasks`successor
      ensures Valid() && TableOk(task.parent.localDeps) && TableTasks(task.parent.localDeps) <= tasks
      ensures done <= |deps|
      ensures r == Ok ==> done == |deps|
      ensures r != Ok ==> r == Aborted && 0 < done && RouteOf(deps[done - 1], l2g) == DelayedRoute
      ensures log == old(log) + events
      ensures var sent := if task.parent.state == Root then Requests(deps[..done], task, task.phase, l2g) else [];
        var c0 := old(task.unresolvedRemoteDeps);
        && RemoteRequests(events) == sent
        && task.unresolvedRemoteDeps == c0 + |sent|
        && remoteBlocked == if c0 <= 0 < c0 + |sent| then [task] + old(remoteBlocked) else old(remoteBlocked)
    {
      r, done, events := Ok, 0, [];
      var i := 0;
      while i < |deps|
        invariant i <= |deps|
        invariant Valid() && TableOk(task.parent.localDeps) && TableTasks(task.parent.localDeps) <= tasks
        invariant Progress(task, deps, i, l2g, old(log), old(task.unresolvedRemoteDeps), old(remoteBlocked), events)
      {
        var rd;
        rd, events := HandleNext(task, deps, i, l2g, localize, copyins[i], tasks,
                                 old(log), old(task.unresolvedRemoteDeps), old(remoteBlocked), events);
        i := i + 1;
        if rd == Aborted {
          r, done := Aborted, i;
          return;
        }
      }
      done := i;
      assert deps[..i] == deps[..|deps|];
    }

    /**
     * dart_tasking_datadeps_reset: for a task with a table, every entry of
     * every bucket and every remote successor is recycled, the table is
     * dropped and both counters are cleared; otherwise nothing changes.
     */
    method Reset(task: Task?) returns (r: Ret)
      requires Valid() && (task != null ==> TableOk(task.localDeps))
      modifies this`freeList, {task}`localDeps, {task}`remoteSuccessor
      modifies {task}`unresolvedDeps, {task}`unresolvedRemoteDeps
      ensures Valid() && r == Ok
      ensures task == null || old(task.localDeps).None? ==> freeList == old(freeList)
      ensures task != null && old(task.localDeps).None? ==>
        && task.localDeps == None && task.remoteSuccessor == old(task.remoteSuccessor)
        && task.unresolvedDeps == old(task.unresolvedDeps)
        && task.unresolvedRemoteDeps == old(task.unresolvedRemoteDeps)
      ensures task != null && old(task.localDeps).Some? ==>
        && freeList == Zeroes(TableSize(old(task.localDeps).value, DepHashSize) + |old(task.remoteSuccessor)|)
                       + old(freeList)
        && task.localDeps == None && task.remoteSuccessor == []
        && task.unresolvedDeps == 0 && task.unresolvedRemoteDeps == 0
    {
      r := Ok;
      if task == null || task.localDeps.None? {
        return;
      }
      var table := task.localDeps.value;
      var i := 0;
      while i < DepHashSize
        modifies this`freeList
        invariant 0 <= i <= DepHashSize
        invariant Valid() && freeList == Zeroes(TableSize(table, i)) + old(freeList)
      {
        FreeEntries(table[i]);
        ZeroesAdd(|table[i]|, TableSize(table, i));
        i := i + 1;
      }
      task.localDeps := None;
      FreeEntries(task.remoteSuccessor);
      ZeroesAdd(|task.remoteSuccessor|, TableSize(table, DepHashSize));
      assert freeList == Zeroes(|task.remoteSuccessor| + TableSize(table, DepHashSize)) + old(freeList);
      task.remoteSuccessor := [];
      task.unresolvedDeps := 0;
      task.unresolvedRemoteDeps := 0;
    }

    /**
     * release_remote_dep_counter: one remote dependency of `t` is resolved
     * (the counters must not underflow). When no remote dependency is left,
     * `t` leaves the list of remotely blocked tasks. The result says whether
     * `t` has no unresolved dependency left.
     */
    method ReleaseRemoteCounter(t: Task) returns (runnable: bool)
      requires t.unresolvedRemoteDeps >= 1 && t.unresolvedDeps >= 0
      modifies t`unresolvedRemoteDeps, this`remoteBlocked
      ensures t.unresolvedRemoteDeps == old(t.unresolvedRemoteDeps) - 1 >= 0
      ensures remoteBlocked ==
        if t.unresolvedRemoteDeps == 0 then RemoveFirst(old(remoteBlocked), t) else old(remoteBlocked)
      ensures runnable <==> t.unresolvedDeps == 0 && t.unresolvedRemoteDeps == 0
    {
      t.unresolvedRemoteDeps := t.unresolvedRemoteDeps - 1;
      if t.unresolvedRemoteDeps == 0 {
        remoteBlocked := RemoveFirst(remoteBlocked, t);
      }
      runnable := t.unresolvedDeps == 0 && t.unresolvedRemoteDeps == 0;
    }

    /**
     * dart_tasking_datadeps_release_remote_dep: an incoming release resolves
     * one remote dependency of `t`; `t` is enqueued when nothing is left.
     */
    method ReleaseRemoteDep(t: Task) returns (r: Ret)
      requires t.unresolvedRemoteDeps >= 1 && t.unresolvedDeps >= 0
      modifies t`unresolvedRemoteDeps, this`remoteBlocked, this`log
      ensures r == Ok && t.unresolvedRemoteDeps == old(t.unresolvedRemoteDeps) - 1
      ensures remoteBlocked ==
        if t.unresolvedRemoteDeps == 0 then RemoveFirst(old(remoteBlocked), t) else old(remoteBlocked)
      ensures log == old(log) + if t.unresolvedDeps == 0 && t.unresolvedRemoteDeps == 0 then [Runnable(t)] else []
    {
      var runnable := ReleaseRemoteCounter(t);
      if runnable {
        log := log + [Runnable(t)];
      }
      r := Ok;
    }

    /**
     * release_remote_dependencies: one release is sent for every remote
     * successor, in list order, and each entry is recycled; the list ends empty.
     */
    method ReleaseRemoteDependencies(task: Task) returns (r: Ret)
      requires Valid()
      modifies this`log, this`freeList, task`remoteSuccessor
      ensures Valid() && r == Ok && task.remoteSuccessor == []
      ensures log == old(log) + ReleaseEvents(old(task.remoteSuccessor))
      ensures freeList == Zeroes(|old(task.remoteSuccessor)|) + old(freeList)
    {
      var rs := task.remoteSuccessor;
      var i := 0;
      while i < |rs|
        modifies this`log, this`freeList
        invariant 0 <= i <= |rs|
        invariant Valid() && freeList == Zeroes(i) + old(freeList)
        invariant log == old(log) + ReleaseEvents(rs[..i])
      {
        var e := rs[i];
        assert rs[..i + 1][..i] == rs[..i];
        log := log + [RemoteRelease(e.origin, e.task, e.dep)];
        RecycleElem(e);
        ZeroesAdd(1, i);
        i := i + 1;
      }
      assert rs[..i] == rs;
      task.remoteSuccessor := [];
      r := Ok;
    }

    /**
     * One round of the release loop of dart_tasking_datadeps_release_local_task:
     * the head successor is popped, loses one local dependency and is
     * enqueued if that leaves it in state Created with nothing unresolved.
     */
    method ReleaseHead(task: Task) returns (succ: Task)
      requires task.successor != []
      requires task.successor[0].unresolvedDeps >= 1 && task.successor[0].unresolvedRemoteDeps >= 0
      modifies this`log, task`successor, {task.successor[0]}`unresolvedDeps
      ensures succ == old(task.successor[0]) && task.successor == old(task.successor[1..])
      ensures succ.unresolvedDeps == old(succ.unresolvedDeps) - 1
      ensures log == old(log) +
        if succ.state == Created && succ.unresolvedDeps == 0 && succ.unresolvedRemoteDeps == 0
        then [Runnable(succ)] else []
    {
      succ := task.successor[0];
      task.successor := task.successor[1..];
      var runnable := ReleaseLocalCounter(succ);
      if succ.state == Created && runnable {
        log := log + [Runnable(succ)];
      }
    }

    /**
     * The second half of dart_tasking_datadeps_release_local_task: the
     * successors are popped one by one, each losing one local dependency per
     * occurrence, and each enqueued when that pop leaves it in state Created
     * with nothing unresolved. The successor list ends empty.
     */
    method ReleaseSuccessors(task: Task)
      requires forall t :: t in task.successor ==>
        t.unresolvedDeps >= Count(task.successor, t) && t.unresolvedRemoteDeps >= 0
      modifies this`log, task`successor, (set t | t in task.successor)`unresolvedDeps
      ensures task.successor == []
      ensures forall t :: t in old(task.successor) ==>
        t.unresolvedDeps == old(t.unresolvedDeps) - Count(old(task.successor), t)
      ensures log == ReadyOnRelease(old(task.successor), old(Snap(task.successor)), |old(task.successor)|, old(log))
    {
      ghost var s := task.successor;
      ghost var c := Snap(s);
      ghost var i := 0;
      while task.successor != []
        invariant 0 <= i <= |s| && task.successor == s[i..]
        invariant forall t {:trigger Count(s[..i], t)} :: t in s ==> t.unresolvedDeps == old(t.unresolvedDeps) - Count(s[..i], t)
        invariant log == ReadyOnRelease(s, c, i, old(log))
        decreases |task.successor|
      {
        CountPrefixStep(s, i, s[i]);
        var succ := ReleaseHead(task);
        forall t | t in s
          ensures t.unresolvedDeps == old(t.unresolvedDeps) - Count(s[..i + 1], t)
        {
          CountPrefixStep(s, i, t);
        }
        i := i + 1;
      }
      assert s[..i] == s;
    }

    /**
     * dart_tasking_datadeps_release_local_task: unless `task` was cancelled
     * its remote successors are released; then its local successors are
     * released as ReleaseSuccessors describes.
     */
    method ReleaseLocalTask(task: Task) returns (r: Ret)
      requires Valid()
      requires forall t :: t in task.successor ==>
        t.unresolvedDeps >= Count(task.successor, t) && t.unresolvedRemoteDeps >= 0
      modifies this`log, this`freeList, task`remoteSuccessor, task`successor
      modifies (set t | t in task.successor)`unresolvedDeps
      ensures Valid() && r == Ok && task.successor == []
      ensures old(task.state) == Cancelled ==>
        task.remoteSuccessor == old(task.remoteSuccessor) && freeList == old(freeList)
      ensures old(task.state) != Cancelled ==>
        task.remoteSuccessor == [] && freeList == Zeroes(|old(task.remoteSuccessor)|) + old(freeList)
      ensures forall t :: t in old(task.successor) ==>
        t.unresolvedDeps == old(t.unresolvedDeps) - Count(old(task.successor), t)
      ensures log == ReadyOnRelease(old(task.successor), old(Snap(task.successor)), |old(task.successor)|,
        old(log) + if old(task.state) == Cancelled then [] else ReleaseEvents(old(task.remoteSuccessor)))
    {
      ghost var c := Snap(task.successor);
      if task.state != Cancelled {
        var _ := ReleaseRemoteDependencies(task);
      } else {
        assert log == old(log) + [];
      }
      assert Snap(task.successor) == c;
      ReleaseSuccessors(task);
      r := Ok;
    }

    /**
     * dart_tasking_datadeps_cancel_remote_deps: the list of remotely blocked
     * tasks is drained; every popped task loses all its remote dependencies
     * and is enqueued when it has no local dependency left.
     */
    method CancelRemoteDeps() returns (r: Ret)
      modifies this`remoteBlocked, this`log, (set t | t in remoteBlocked)`unresolvedRemoteDeps
      ensures r == Ok && remoteBlocked == []
      ensures forall t :: t in old(remoteBlocked) ==> t.unresolvedRemoteDeps == 0
      ensures log == old(log) + CancelEvents(old(remoteBlocked))
    {
      ghost var s := remoteBlocked;
      ghost var i := 0;
      while remoteBlocked != []
        modifies this`remoteBlocked, this`log, (set t | t in s)`unresolvedRemoteDeps
        invariant 0 <= i <= |s| && remoteBlocked == s[i..]
        invariant forall t :: t in s[..i] ==> t.unresolvedRemoteDeps == 0
        invariant log == old(log) + CancelEvents(s[..i])
        decreases |remoteBlocked|
      {
        var t := remoteBlocked[0];
        assert t == s[i];
        assert s[..i + 1][..i] == s[..i];
        remoteBlocked := remoteBlocked[1..];
        t.unresolvedRemoteDeps := 0;
        if t.unresolvedDeps == 0 {
          log := log + [Runnable(t)];
        }
        i := i + 1;
      }
      assert s[..i] == s;
      r := Ok;
    }

    /**
     * dart_tasking_datadeps_handle_remote_task: a remote request for
     * anything but an input dependency is refused; otherwise it is queued
     * (newest first) for the next deferred pass.
     */
    method HandleRemoteTask(rdep: Dep, remoteTask: TaskRef, origin: int) returns (r: Ret)
      requires Valid() && (rdep.kind == In ==> remoteTask != NoTask)
      modifies this`unhandledRemote, this`freeList
      ensures Valid()
      ensures rdep.kind != In ==>
        r == ErrInval && unhandledRemote == old(unhandledRemote) && freeList == old(freeList)
      ensures rdep.kind == In ==>
        && r == Ok
        && unhandledRemote == [Entry(rdep, remoteTask, origin)] + old(unhandledRemote)
        && freeList == if old(freeList) == [] then [] else old(freeList)[1..]
    {
      if rdep.kind != In {
        return ErrInval;
      }
      var rs := AllocateElem(rdep, remoteTask, origin);
      unhandledRemote := [rs] + unhandledRemote;
      r := Ok;
    }

    /**
     * One round of dart_tasking_datadeps_handle_defered_remote, after the
     * walk: a direct candidate is told to the origin as a direct edge, gains
     * one remote dependency and joins the remotely blocked tasks when it had
     * none; then the request becomes a remote successor of the candidate, or,
     * without one, is released and its entry recycled.
     */
    method AnswerRequest(rdep: Entry, candidate: Task?, direct: Task?)
      requires Valid()
      modifies this`log, this`freeList, this`remoteBlocked, {direct}`unresolvedRemoteDeps, {candidate}`remoteSuccessor
      ensures Valid()
      ensures log == old(log) + AnswerEvents(rdep, RemoteMatch(candidate, direct))
      ensures direct != null ==> direct.unresolvedRemoteDeps == old(direct.unresolvedRemoteDeps) + 1
      ensures remoteBlocked ==
        (if direct != null && old(direct.unresolvedRemoteDeps) == 0 then [direct] else []) + old(remoteBlocked)
      ensures candidate != null ==> candidate.remoteSuccessor == [rdep] + old(candidate.remoteSuccessor)
      ensures freeList == if candidate == null then [Zeroed] + old(freeList) else old(freeList)
    {
      if direct != null {
        log := log + [DirectEdge(rdep.origin, direct, rdep.task)];
        var before := direct.unresolvedRemoteDeps;
        direct.unresolvedRemoteDeps := direct.unresolvedRemoteDeps + 1;
        if before == 0 {
          remoteBlocked := [direct] + remoteBlocked;
        }
      }
      if candidate != null {
        candidate.remoteSuccessor := [rdep] + candidate.remoteSuccessor;
      } else {
        log := log + [RemoteRelease(rdep.origin, rdep.task, rdep.dep)];
        RecycleElem(rdep);
      }
    }

    /**
     * The walk of dart_tasking_datadeps_handle_defered_remote for one
     * request in the table `table` (see RequestMatch).
     */
    method FindMatch(table: Option<seq<seq<Entry>>>, rdep: Entry) returns (candidate: Task?, direct: Task?)
      requires TableOk(table)
      ensures RemoteMatch(candidate, direct) == RequestMatch(table, rdep)
      ensures candidate != null ==> candidate in TableTasks(table)
      ensures direct != null ==> direct in TableTasks(table)
    {
      candidate, direct := null, null;
      if table.Some? {
        var slot := HashGptr(rdep.dep.gptr);
        BucketEntriesInTable(table, slot);
        candidate, direct := ScanRemote(table.value[slot], rdep.dep);
        MatchInBucket(table.value[slot], rdep.dep, candidate, direct);
        BucketTasksInTable(table, slot);
      }
    }

    /**
     * One round of dart_tasking_datadeps_handle_defered_remote: the walk
     * for request `rdep` in `table`, which finds the match `m`, followed by
     * the answer AnswerRequest describes.
     */
    method AnswerNext(table: Option<seq<seq<Entry>>>, rdep: Entry, ghost m: RemoteMatch, ghost tasks: set<Task>,
                      ghost q: seq<Entry>)
      requires Valid() && TableOk(table) && TableTasks(table) <= tasks
      requires m == RequestMatch(table, rdep)
      modifies this`log, this`freeList, this`remoteBlocked, tasks`unresolvedRemoteDeps, tasks`remoteSuccessor
      ensures Valid() && (m.direct != null ==> m.direct in tasks) && Matches(table, q) == old(Matches(table, q))
      ensures log == old(log) + AnswerEvents(rdep, m)
      ensures freeList == if m.candidate == null then [Zeroed] + old(freeList) else old(freeList)
      ensures remoteBlocked ==
        (if m.direct != null && old(m.direct.unresolvedRemoteDeps) == 0 then [m.direct] else []) + old(remoteBlocked)
      ensures forall t :: t in tasks ==>
        t.unresolvedRemoteDeps == old(t.unresolvedRemoteDeps) + if m.direct == t then 1 else 0
      ensures forall t :: t in tasks ==>
        t.remoteSuccessor == if m.candidate == t then [rdep] + old(t.remoteSuccessor) else old(t.remoteSuccessor)
    {
      var candidate, direct := FindMatch(table, rdep);
      AnswerRequest(rdep, candidate, direct);
    }

    /**
     * dart_tasking_datadeps_handle_defered_local: the deferred tasks are
     * popped one by one and those that have not gained a remote dependency
     * meanwhile are pushed onto the thread's queue, `pushed` (see
     * StillReady); the others are dropped. The queue ends empty.
     */
    method HandleDeferredLocal() returns (r: Ret, pushed: seq<Task>)
      modifies this`localDeferred
      ensures r == Ok && localDeferred == [] && pushed == StillReady(old(localDeferred))
    {
      ghost var s := localDeferred;
      pushed := [];
      ghost var i := 0;
      while localDeferred != []
        invariant i <= |s| && localDeferred == s[i..]
        invariant pushed == StillReady(s[..i])
        decreases |localDeferred|
      {
        var task := localDeferred[0];
        localDeferred := localDeferred[1..];
        if task.unresolvedRemoteDeps == 0 {
          pushed := pushed + [task];
        }
        assert s[..i + 1][..i] == s[..i];
        i := i + 1;
      }
      assert s[..i] == s;
      r := Ok;
    }

    /**
     * dart_tasking_datadeps_handle_defered_remote: every queued request is
     * matched against the table of `current` (the task running the pass) and
     * answered as AnswerRequest describes, oldest entry of the list last;
     * the queue ends empty. `tasks` holds every task of that table.
     */
    method HandleDeferredRemote(current: Task, ghost tasks: set<Task>) returns (r: Ret)
      requires Valid() && TableOk(current.localDeps) && TableTasks(current.localDeps) <= tasks
      modifies this`unhandledRemote, this`log, this`freeList, this`remoteBlocked
      modifies tasks`unresolvedRemoteDeps, tasks`remoteSuccessor
      ensures Valid() && r == Ok && unhandledRemote == []
      ensures var q, ms := old(unhandledRemote), old(Matches(current.localDeps, unhandledRemote));
        && log == old(log) + PassEvents(q, ms, |q|)
        && freeList == Zeroes(Released(ms, |q|)) + old(freeList)
        && remoteBlocked == Blocked(ms, |q|, old(RemoteCounts(tasks)), old(remoteBlocked))
        && Answered(q, ms, |q|, tasks, old(RemoteCounts(tasks)), old(RemoteLists(tasks)))
    {
      var table := current.localDeps;
      var q := unhandledRemote;
      ghost var ms := Matches(table, q);
      AnswerAll(table, q, ms, tasks, RemoteCounts(tasks), RemoteLists(tasks), log, freeList, remoteBlocked);
      PassLogAppends(q, ms, |q|, old(log));
      RecycledAreReleased(ms, |q|, old(freeList));
      unhandledRemote := [];
      r := Ok;
    }

    /**
     * The loop of the deferred pass: the requests of `q` are answered in
     * order. The log, the free list, the remote-blocked list and the
     * remote counters and remote successor lists of the tasks start as
     * `log0`, `free0`, `blocked0`, `counts` and `lists`.
     */
    method AnswerAll(table: Option<seq<seq<Entry>>>, q: seq<Entry>, ghost ms: seq<RemoteMatch>,
                     ghost tasks: set<Task>, ghost counts: map<Task, int>, ghost lists: map<Task, seq<Entry>>,
                     ghost log0: seq<Event>, ghost free0: seq<Entry>, ghost blocked0: seq<Task>)
      requires Valid() && TableOk(table) && TableTasks(table) <= tasks
      requires ms == Matches(table, q)
      requires Answered(q, ms, 0, tasks, counts, lists)
      requires log == log0 && freeList == free0 && remoteBlocked == blocked0
      modifies this`log, this`freeList, this`remoteBlocked, tasks`unresolvedRemoteDeps, tasks`remoteSuccessor
      ensures Valid() && Answered(q, ms, |q|, tasks, counts, lists)
      ensures log == PassLog(q, ms, |q|, log0) && freeList == Recycled(ms, |q|, free0)
      ensures remoteBlocked == Blocked(ms, |q|, counts, blocked0)
    {
      var i := 0;
      while i < |q|
        invariant i <= |q| && ms == Matches(table, q)
        invariant Valid()
        invariant log == PassLog(q, ms, i, log0) && freeList == Recycled(ms, i, free0)
        invariant remoteBlocked == Blocked(ms, i, counts, blocked0)
        invariant Answered(q, ms, i, tasks, counts, lists)
      {
        AnswerAt(table, q, ms, i, tasks, counts, lists, log0, free0, blocked0);
        i := i + 1;
      }
    }

    /**
     * Round `i` of the deferred pass: request q[i] is answered. The log,
     * the free list, the remote-blocked list and the remote counters and
     * remote successor lists of the tasks, which were `log0`, `free0`,
     * `blocked0`, `counts` and `lists` before the pass, account for one
     * more request.
     */
    method AnswerAt(table: Option<seq<seq<Entry>>>, q: seq<Entry>, ghost ms: seq<RemoteMatch>, i: nat,
                    ghost tasks: set<Task>, ghost counts: map<Task, int>, ghost lists: map<Task, seq<Entry>>,
                    ghost log0: seq<Event>, ghost free0: seq<Entry>, ghost blocked0: seq<Task>)
      requires Valid() && TableOk(table) && TableTasks(table) <= tasks
      requires i < |q| && ms == Matches(table, q)
      requires Answered(q, ms, i, tasks, counts, lists)
      requires log == PassLog(q, ms, i, log0) && freeList == Recycled(ms, i, free0)
      requires remoteBlocked == Blocked(ms, i, counts, blocked0)
      modifies this`log, this`freeList, this`remoteBlocked, tasks`unresolvedRemoteDeps, tasks`remoteSuccessor
      ensures Valid() && ms == Matches(table, q) && Answered(q, ms, i + 1, tasks, counts, lists)
      ensures log == PassLog(q, ms, i + 1, log0) && freeList == Recycled(ms, i + 1, free0)
      ensures remoteBlocked == Blocked(ms, i + 1, counts, blocked0)
    {
      AnswerNext(table, q[i], ms[i], tasks, q);
      ghost var d := ms[i].direct;
      assert d != null ==> d in counts && old(d.unresolvedRemoteDeps) == counts[d] + DirectCount(ms, i, d);
      BlockedStep(ms, i, counts, blocked0, old(remoteBlocked), remoteBlocked);
      forall t | t in tasks
        ensures t.unresolvedRemoteDeps == counts[t] + DirectCount(ms, i + 1, t)
        ensures t.remoteSuccessor == Attached(q, ms, i + 1, t, lists[t])
      {
        AttachedStep(q, ms, i, t, lists[t], old(t.remoteSuccessor), t.remoteSuccessor);
        DirectCountStep(ms, i, t, counts[t], old(t.unresolvedRemoteDeps), t.unresolvedRemoteDeps);
      }
    }

    /**
     * dart_tasking_datadeps_handle_remote_direct: a remote task that must
     * wait for `localTask` becomes one of its remote successors while
     * `localTask` is active; otherwise it is released at once.
     */
    method HandleRemoteDirect(localTask: Task, remoteTask: TaskRef, origin: int) returns (r: Ret)
      requires Valid() && (IsActive(localTask.state) ==> remoteTask != NoTask)
      modifies this`freeList, this`log, localTask`remoteSuccessor
      ensures Valid() && r == Ok
      ensures IsActive(localTask.state) ==>
        && localTask.remoteSuccessor == [Entry(DirectDep, remoteTask, origin)] + old(localTask.remoteSuccessor)
        && log == old(log)
        && freeList == if old(freeList) == [] then [] else old(freeList)[1..]
      ensures !IsActive(localTask.state) ==>
        && localTask.remoteSuccessor == old(localTask.remoteSuccessor)
        && log == old(log) + [RemoteRelease(origin, remoteTask, DirectDep)]
        && freeList == old(freeList)
    {
      var enqueued := false;
      if IsActive(localTask.state) {
        var rs := AllocateElem(DirectDep, remoteTask, origin);
        localTask.remoteSuccessor := [rs] + localTask.remoteSuccessor;
        enqueued := true;
      }
      if !enqueued {
        log := log + [RemoteRelease(origin, remoteTask, DirectDep)];
      }
      r := Ok;
    }
  }
}
