/**
 * The scans the dependency engine performs over one bucket of a task group's
 * dependency table, written as functions of the bucket (newest entry first).
 * The methods of the engine walk the bucket with loops and are proved to
 * compute what these functions describe.
 */
module Matching {
  import opened DepTypes

  // ---------------------------------------------------------------------
  // Immediate local matching (match_local_datadep)
  // ---------------------------------------------------------------------

  /** An entry at which the immediate matcher stops: the same address, and either the task itself or a writer. */
  predicate StopsLocal(e: Entry, dep: Dep, task: Task) {
    DepAddrEq(e.dep, dep) && (e.task == Local(task) || IsOutDep(e.dep))
  }

  /**
   * The index at which the immediate matcher stops walking the bucket: the
   * first entry on the same address that belongs to `task` itself or writes
   * the region; |b| when there is none.
   */
  function StopIndex(b: seq<Entry>, dep: Dep, task: Task): (k: nat)
    ensures k <= |b|
    ensures k < |b| ==> StopsLocal(b[k], dep, task)
    ensures forall j :: 0 <= j < k ==> !StopsLocal(b[j], dep, task)
  {
    if b == [] then 0
    else if StopsLocal(b[0], dep, task) then 0
    else 1 + StopIndex(b[1..], dep, task)
  }

  /**
   * The number of entries whose task the immediate matcher considers as a
   * producer: those before the stop, and the stop entry itself unless it
   * belongs to `task`.
   */
  function EdgeEnd(b: seq<Entry>, dep: Dep, task: Task): (n: nat)
    ensures n <= |b|
  {
    var k := StopIndex(b, dep, task);
    if k < |b| && b[k].task != Local(task) then k + 1 else k
  }

  /**
   * An entry whose task the new dependency must wait for: the same address,
   * another task, and a write on either side (the new dependency writes, or
   * it reads and the entry writes).
   */
  predicate WantsEdge(e: Entry, dep: Dep, task: Task) {
    && DepAddrEq(e.dep, dep)
    && e.task.Local? && e.task.task != task
    && (IsOutDep(dep) || (dep.kind == In && IsOutDep(e.dep)))
  }

  /** The tasks of the first `n` entries of `b` that the new dependency must wait for. */
  function Producers(b: seq<Entry>, dep: Dep, task: Task, n: nat): set<Task>
    requires n <= |b|
  {
    if n == 0 then {}
    else
      var p := Producers(b, dep, task, n - 1);
      if WantsEdge(b[n - 1], dep, task) then p + {b[n - 1].task.task} else p
  }

  /**
   * The producers among the first `n` entries are exactly the tasks of the
   * entries that want an edge; `task` itself is never one of them.
   */
  lemma {:induction false} ProducersMembers(b: seq<Entry>, dep: Dep, task: Task, n: nat)
    requires n <= |b|
    ensures task !in Producers(b, dep, task, n)
    ensures forall j :: 0 <= j < n && WantsEdge(b[j], dep, task) ==> b[j].task.task in Producers(b, dep, task, n)
    ensures forall t :: t in Producers(b, dep, task, n) ==>
      exists j :: 0 <= j < n && WantsEdge(b[j], dep, task) && b[j].task.task == t
  {
    if n > 0 {
      ProducersMembers(b, dep, task, n - 1);
    }
  }

  /**
   * The producers among the first `n` entries that belong to `eligible`,
   * gathered entry by entry as the matcher adds its edges.
   */
  function EligibleProducers(b: seq<Entry>, dep: Dep, task: Task, n: nat, eligible: set<Task>): set<Task>
    requires n <= |b|
  {
    if n == 0 then {}
    else
      var p := EligibleProducers(b, dep, task, n - 1, eligible);
      if WantsEdge(b[n - 1], dep, task) && b[n - 1].task.task in eligible then p + {b[n - 1].task.task} else p
  }

  /** One more entry adds its task when it wants an edge and the task is eligible. */
  lemma EligibleProducersStep(b: seq<Entry>, dep: Dep, task: Task, n: nat, eligible: set<Task>)
    requires n < |b|
    ensures EligibleProducers(b, dep, task, n + 1, eligible) ==
      var p := EligibleProducers(b, dep, task, n, eligible);
      if WantsEdge(b[n], dep, task) && b[n].task.task in eligible then p + {b[n].task.task} else p
  {
  }

  /** Gathering the eligible producers entry by entry selects the eligible ones among all producers. */
  lemma {:induction false} EligibleProducersAre(b: seq<Entry>, dep: Dep, task: Task, n: nat, eligible: set<Task>)
    requires n <= |b|
    ensures EligibleProducers(b, dep, task, n, eligible) == Producers(b, dep, task, n) * eligible
  {
    if n > 0 {
      EligibleProducersAre(b, dep, task, n - 1, eligible);
    }
  }

  /** The producers the immediate matcher finds in the bucket. */
  function LocalProducers(b: seq<Entry>, dep: Dep, task: Task): set<Task> {
    Producers(b, dep, task, EdgeEnd(b, dep, task))
  }

  /**
   * Whether the matcher upgrades `task`'s own read entry to a read-write
   * entry: it stopped at that entry and the new dependency writes.
   */
  predicate Upgrades(b: seq<Entry>, dep: Dep, task: Task) {
    var k := StopIndex(b, dep, task);
    k < |b| && b[k].task == Local(task) && b[k].dep.kind == In && IsOutDep(dep)
  }

  /** The bucket after the immediate matcher: unchanged unless an own read entry is upgraded. */
  function MatchedBucket(b: seq<Entry>, dep: Dep, task: Task): seq<Entry> {
    var k := StopIndex(b, dep, task);
    if Upgrades(b, dep, task) then b[k := b[k].(dep := b[k].dep.(kind := InOut))] else b
  }

  /**
   * Upgrading keeps every entry's task, address and phase; it only turns
   * one read of `task`'s into a read-write and leaves all other entries alone.
   */
  lemma MatchedBucketKeepsEntries(b: seq<Entry>, dep: Dep, task: Task)
    ensures var r := MatchedBucket(b, dep, task);
      && |r| == |b|
      && (forall j :: 0 <= j < |b| ==>
            r[j].task == b[j].task && r[j].dep.gptr == b[j].dep.gptr && r[j].dep.phase == b[j].dep.phase)
      && (forall j :: 0 <= j < |b| && r[j] != b[j] ==>
            j == StopIndex(b, dep, task) && b[j].task == Local(task) && b[j].dep.kind == In && r[j].dep.kind == InOut)
  {
  }

  /**
   * A read after a write (RAW): when the first entry on the address is a
   * write by another task, a reading dependency waits for exactly that task.
   */
  lemma {:induction false} ReadWaitsForLastWriter(b: seq<Entry>, dep: Dep, task: Task, k: nat)
    requires dep.kind == In
    requires k < |b| && DepAddrEq(b[k].dep, dep) && IsOutDep(b[k].dep)
    requires b[k].task.Local? && b[k].task.task != task
    requires forall j :: 0 <= j < k ==> !DepAddrEq(b[j].dep, dep)
    ensures StopIndex(b, dep, task) == k
    ensures LocalProducers(b, dep, task) == {b[k].task.task}
  {
    assert StopIndex(b, dep, task) == k;
    assert EdgeEnd(b, dep, task) == k + 1;
    ProducersNone(b, dep, task, k);
  }

  /** No entry of the first `n` wants an edge when none of them is on the address. */
  lemma {:induction false} ProducersNone(b: seq<Entry>, dep: Dep, task: Task, n: nat)
    requires n <= |b|
    requires forall j :: 0 <= j < n ==> !DepAddrEq(b[j].dep, dep)
    ensures Producers(b, dep, task, n) == {}
  {
    if n > 0 {
      ProducersNone(b, dep, task, n - 1);
    }
  }

  /**
   * A write after reads and a write (WAR and WAW): a writing dependency
   * waits for the task of every other entry on the address up to and
   * including the newest write, and for no one else.
   */
  lemma WriteWaitsForReadersAndWriter(b: seq<Entry>, dep: Dep, task: Task)
    requires IsOutDep(dep)
    requires forall j :: 0 <= j < |b| ==> b[j].task.Local?
    ensures forall t :: t in LocalProducers(b, dep, task) <==>
      exists j :: 0 <= j < EdgeEnd(b, dep, task) && DepAddrEq(b[j].dep, dep) && b[j].task == Local(t) && t != task
  {
    ProducersMembers(b, dep, task, EdgeEnd(b, dep, task));
  }

  /**
   * Filing a dependency twice adds no edge the second time: once `task`'s
   * entry heads the bucket, the matcher stops there at once.
   */
  lemma RepeatedDependencyAddsNothing(b: seq<Entry>, dep: Dep, task: Task, e: Entry)
    requires e.task == Local(task) && DepAddrEq(e.dep, dep)
    ensures StopIndex([e] + b, dep, task) == 0
    ensures LocalProducers([e] + b, dep, task) == {}
  {
  }

  // ---------------------------------------------------------------------
  // Delayed local matching (match_delayed_local_datadep)
  // ---------------------------------------------------------------------

  /** A writer on the dependency's address filed in its phase or an earlier one. */
  predicate DelayedProducer(e: Entry, dep: Dep) {
    e.dep.phase <= dep.phase && DepAddrEq(e.dep, dep) && IsOutDep(e.dep)
  }

  /** A writer on the dependency's address filed in a later phase. */
  predicate LaterWriter(e: Entry, dep: Dep) {
    e.dep.phase > dep.phase && DepAddrEq(e.dep, dep) && IsOutDep(e.dep)
  }

  /**
   * The index of the producer the delayed matcher finds: the first writer on
   * the address in the dependency's phase or earlier, |b| when there is none.
   */
  function DelayedIndex(b: seq<Entry>, dep: Dep): (k: nat)
    ensures k <= |b|
    ensures k < |b| ==> DelayedProducer(b[k], dep)
    ensures forall j :: 0 <= j < k ==> !DelayedProducer(b[j], dep)
  {
    if b == [] then 0
    else if DelayedProducer(b[0], dep) then 0
    else 1 + DelayedIndex(b[1..], dep)
  }

  /**
   * The index of `next_out_task`'s entry when the walk reaches index `k`:
   * the last later-phase writer before `k`, or -1 when there is none.
   */
  function NextOut(b: seq<Entry>, dep: Dep, k: nat): (j: int)
    requires k <= |b|
    ensures -1 <= j < k
    ensures j >= 0 ==> LaterWriter(b[j], dep)
    ensures forall i :: j < i < k ==> !LaterWriter(b[i], dep)
  {
    if k == 0 then -1
    else if LaterWriter(b[k - 1], dep) then k - 1
    else NextOut(b, dep, k - 1)
  }

  /**
   * The delayed matcher only ever meets entries of other tasks in the phase
   * of the dependency or earlier on its address (it asserts this).
   */
  predicate NoOwnEntryBefore(b: seq<Entry>, dep: Dep, task: Task, k: nat)
    requires k <= |b|
  {
    forall j :: 0 <= j < k && j < |b| && b[j].dep.phase <= dep.phase && DepAddrEq(b[j].dep, dep) ==>
      b[j].task != Local(task)
  }

  /** `e` placed immediately before index `k` of the bucket. */
  function InsertAt(b: seq<Entry>, k: nat, e: Entry): (r: seq<Entry>)
    requires k <= |b|
  {
    b[..k] + [e] + b[k..]
  }

  /**
   * Inserting before the producer keeps every old entry in its order and
   * puts the new entry right in front of the producer; taking it out again
   * gives back the old bucket.
   */
  lemma InsertAtPlacesBefore(b: seq<Entry>, k: nat, e: Entry)
    requires k <= |b|
    ensures var r := InsertAt(b, k, e);
      && |r| == |b| + 1 && r[k] == e
      && (forall j :: 0 <= j < k ==> r[j] == b[j])
      && (forall j :: k <= j < |b| ==> r[j + 1] == b[j])
      && r[..k] + r[k + 1..] == b
  {
    var r := InsertAt(b, k, e);
    assert r[..k] == b[..k];
    assert r[k + 1..] == b[k..];
    assert b[..k] + b[k..] == b;
  }

  /**
   * The writers on each address appear newest phase first: what the remote
   * matcher and the copy-in scan rely on.
   */
  predicate OutPhaseDescending(b: seq<Entry>) {
    forall i, j :: 0 <= i < j < |b| && IsOutDep(b[i].dep) && IsOutDep(b[j].dep) && DepAddrEq(b[i].dep, b[j].dep) ==>
      b[i].dep.phase >= b[j].dep.phase
  }

  /**
   * An entry that bounds the phases of the entries filed above it: a
   * writer, or a read the immediate matcher may later turn into one. A
   * delayed input is never upgraded and bounds nothing.
   */
  predicate PhaseBound(e: Entry) {
    IsOutDep(e.dep) || e.dep.kind == In
  }

  /**
   * The order the table keeps: every entry is in a phase no earlier than
   * each writer or read below it on its address.
   */
  predicate PhaseOrdered(b: seq<Entry>) {
    forall i, j :: 0 <= i < j < |b| && PhaseBound(b[j]) && DepAddrEq(b[i].dep, b[j].dep) ==>
      b[i].dep.phase >= b[j].dep.phase
  }

  /**
   * Filing `d` in phase order: its phase is no earlier than that of any
   * writer or read already filed on its address.
   */
  predicate FilesInOrder(b: seq<Entry>, d: Dep) {
    forall j :: 0 <= j < |b| && PhaseBound(b[j]) && DepAddrEq(b[j].dep, d) ==> d.phase >= b[j].dep.phase
  }

  /** A table bucket in that order has its writers in phase-descending order. */
  lemma OrderedWritersDescend(b: seq<Entry>)
    requires PhaseOrdered(b)
    ensures OutPhaseDescending(b)
  {
  }

  /**
   * With writers in phase-descending order, `next_out_task` is the writer of
   * the earliest later phase: no later-phase writer before the producer has
   * a lower phase than it.
   */
  lemma NextOutIsEarliestLaterWriter(b: seq<Entry>, dep: Dep)
    requires OutPhaseDescending(b)
    ensures var k := DelayedIndex(b, dep);
            var n := NextOut(b, dep, k);
      n >= 0 ==> forall i :: 0 <= i < k && LaterWriter(b[i], dep) ==> b[i].dep.phase >= b[n].dep.phase
  {
  }

  /**
   * Filing a delayed input right before its producer keeps the order: the
   * new entry bounds nothing above it, and it is in a phase no earlier
   * than the producer, which bounds everything below.
   */
  lemma {:induction false} DelayedInsertKeepsOrder(b: seq<Entry>, k: nat, e: Entry)
    requires k < |b| && PhaseOrdered(b) && !PhaseBound(e) && DelayedProducer(b[k], e.dep)
    ensures PhaseOrdered(InsertAt(b, k, e))
  {
    var r := InsertAt(b, k, e);
    InsertAtPlacesBefore(b, k, e);
    forall i, j | 0 <= i < j < |r| && PhaseBound(r[j]) && DepAddrEq(r[i].dep, r[j].dep)
      ensures r[i].dep.phase >= r[j].dep.phase
    {
      var i' := if i <= k then i else i - 1;
      var j' := if j <= k then j else j - 1;
      if i == k {
        assert r[j] == b[j'] && k <= j';
        assert b[k].dep.phase >= b[j'].dep.phase;
      } else {
        assert j != k && r[i] == b[i'] && r[j] == b[j'] && i' < j';
      }
    }
  }

  /**
   * Pushing an entry at the head keeps the order when it is filed in phase
   * order.
   */
  lemma PushKeepsOrder(b: seq<Entry>, e: Entry)
    requires PhaseOrdered(b) && FilesInOrder(b, e.dep)
    ensures PhaseOrdered([e] + b)
  {
    var r := [e] + b;
    forall i, j | 0 <= i < j < |r| && PhaseBound(r[j]) && DepAddrEq(r[i].dep, r[j].dep)
      ensures r[i].dep.phase >= r[j].dep.phase
    {
      assert r[j] == b[j - 1];
      if i > 0 {
        assert r[i] == b[i - 1];
      }
    }
  }

  /**
   * The immediate matcher's upgrade keeps the order and what filing in
   * order means: it turns a read into a read-write in the same phase, and
   * both bound the entries above them.
   */
  lemma MatchedBucketKeepsOrder(b: seq<Entry>, dep: Dep, task: Task, d: Dep)
    ensures PhaseOrdered(b) ==> PhaseOrdered(MatchedBucket(b, dep, task))
    ensures FilesInOrder(b, d) ==> FilesInOrder(MatchedBucket(b, dep, task), d)
  {
    MatchedBucketKeepsEntries(b, dep, task);
    var r := MatchedBucket(b, dep, task);
    assert forall j :: 0 <= j < |b| ==> (PhaseBound(r[j]) <==> PhaseBound(b[j]));
  }

  // ---------------------------------------------------------------------
  // Copy-in de-duplication (handle_copyin)
  // ---------------------------------------------------------------------

  /**
   * An entry at which the copy-in scan ends: on the destination address, and
   * either filed in an earlier phase (the scan gives up) or a writer in the
   * same phase (the task already fetching the data).
   */
  predicate EndsCopyinScan(e: Entry, addr: Word, phase: int) {
    e.dep.gptr.addr == addr && (e.dep.phase < phase || (IsOutDep(e.dep) && e.dep.phase == phase))
  }

  /** The index at which the copy-in scan ends, |b| when it runs off the bucket. */
  function CopyinIndex(b: seq<Entry>, addr: Word, phase: int): (k: nat)
    ensures k <= |b|
    ensures k < |b| ==> EndsCopyinScan(b[k], addr, phase)
    ensures forall j :: 0 <= j < k ==> !EndsCopyinScan(b[j], addr, phase)
  {
    if b == [] then 0
    else if EndsCopyinScan(b[0], addr, phase) then 0
    else 1 + CopyinIndex(b[1..], addr, phase)
  }

  /** The scan found a task that already copies the data in this phase. */
  predicate CopyinFound(b: seq<Entry>, addr: Word, phase: int) {
    var k := CopyinIndex(b, addr, phase);
    k < |b| && !(b[k].dep.phase < phase)
  }

  /**
   * The copy-in scan finds a same-phase writer exactly when one comes before
   * every entry on the address from an earlier phase.
   */
  lemma CopyinFoundIff(b: seq<Entry>, addr: Word, phase: int)
    ensures CopyinFound(b, addr, phase) <==>
      exists k :: 0 <= k < |b| && b[k].dep.gptr.addr == addr && IsOutDep(b[k].dep) && b[k].dep.phase == phase &&
        forall j :: 0 <= j < k ==> !(b[j].dep.gptr.addr == addr && b[j].dep.phase < phase)
  {
    var k := CopyinIndex(b, addr, phase);
    if CopyinFound(b, addr, phase) {
      assert b[k].dep.gptr.addr == addr && IsOutDep(b[k].dep) && b[k].dep.phase == phase;
    } else {
      forall k' | 0 <= k' < |b| && b[k'].dep.gptr.addr == addr && IsOutDep(b[k'].dep) && b[k'].dep.phase == phase
        ensures exists j :: 0 <= j < k' && b[j].dep.gptr.addr == addr && b[j].dep.phase < phase
      {
        assert k <= k';
        if k == k' {
          assert false;
        }
        assert b[k].dep.gptr.addr == addr && b[k].dep.phase < phase;
      }
    }
  }

  // ---------------------------------------------------------------------
  // Deferred remote requests (handle_defered_remote)
  // ---------------------------------------------------------------------

  /** An entry the remote matcher inspects: a local writer on the request's address. */
  predicate Considered(e: Entry, d: Dep) {
    e.task.Local? && IsOutDep(e.dep) && DepAddrEq(e.dep, d)
  }

  /** The outcome of the remote matcher's walk for one request. */
  datatype RemoteMatch = RemoteMatch(candidate: Task?, direct: Task?)

  /**
   * The remote matcher's walk from index `j` with the direct candidate found
   * so far. It ends at the first inactive writer, or at the first active
   * writer from an earlier phase, which becomes the candidate. Writers in
   * the request's phase or later become the direct candidate when there is
   * none yet or when the current one's task phase exceeds their entry's
   * phase.
   */
  function RemoteScan(b: seq<Entry>, d: Dep, j: nat, direct: Task?): (m: RemoteMatch)
    requires j <= |b|
    reads BucketTasks(b)`state, BucketTasks(b)`phase, {direct}`phase
    decreases |b| - j
  {
    if j == |b| then RemoteMatch(null, direct)
    else if !Considered(b[j], d) then RemoteScan(b, d, j + 1, direct)
    else
      var t := b[j].task.task;
      assert t in BucketTasks(b);
      if !IsActive(t.state) then RemoteMatch(null, direct)
      else if b[j].dep.phase < d.phase then RemoteMatch(t, direct)
      else RemoteScan(b, d, j + 1, if direct == null || direct.phase > b[j].dep.phase then t else direct)
  }

  /**
   * The candidate, when there is one, is an active writer on the address
   * from an earlier phase; a new direct candidate is an active writer on the
   * address from the request's phase or later.
   */
  lemma {:induction false} RemoteScanFinds(b: seq<Entry>, d: Dep, j: nat, direct: Task?)
    requires j <= |b|
    ensures var m := RemoteScan(b, d, j, direct);
      && (m.candidate != null ==>
            exists i :: j <= i < |b| && Considered(b[i], d) && b[i].task.task == m.candidate &&
              b[i].dep.phase < d.phase && IsActive(m.candidate.state))
      && (m.direct != direct ==>
            exists i :: j <= i < |b| && Considered(b[i], d) && b[i].task.task == m.direct &&
              b[i].dep.phase >= d.phase && IsActive(m.direct.state))
    decreases |b| - j
  {
    if j < |b| && Considered(b[j], d) {
      var t := b[j].task.task;
      if IsActive(t.state) && b[j].dep.phase >= d.phase {
        var direct' := if direct == null || direct.phase > b[j].dep.phase then t else direct;
        RemoteScanFinds(b, d, j + 1, direct');
      }
    } else if j < |b| {
      RemoteScanFinds(b, d, j + 1, direct);
    }
  }

  /** From index `j` on, every writer the remote matcher inspects has a task in the phase its entry was filed in. */
  ghost predicate TaskPhasesMatch(b: seq<Entry>, d: Dep, j: nat)
    reads BucketTasks(b)`phase
  {
    forall i :: j <= i < |b| && Considered(b[i], d) ==>
      b[i].task.task in BucketTasks(b) && b[i].task.task.phase == b[i].dep.phase
  }

  /**
   * When every inspected writer's task is in its entry's phase, the direct
   * candidate is the writer of the earliest phase among those the walk
   * passes (active, in the request's phase or later): its phase is at most
   * that of each of them and of the candidate it started with, and a new
   * one is one of them. The walk compares the candidate task's phase with
   * the entry's phase, so without that premise the earliest writer is not
   * guaranteed.
   */
  lemma {:induction false} DirectIsEarliestLaterWriter(b: seq<Entry>, d: Dep, j: nat, direct: Task?)
    requires j <= |b| && TaskPhasesMatch(b, d, j)
    ensures var m := RemoteScan(b, d, j, direct);
      && (direct != null ==> m.direct != null && m.direct.phase <= direct.phase)
      && (forall i :: j <= i < |b| && Considered(b[i], d) && AllActiveLater(b, d, j, i + 1) ==>
            m.direct != null && m.direct.phase <= b[i].dep.phase)
      && (m.direct != direct ==>
            exists i :: j <= i < |b| && Considered(b[i], d) && AllActiveLater(b, d, j, i + 1) && b[i].task.task == m.direct)
    decreases |b| - j
  {
    if j < |b| {
      var m := RemoteScan(b, d, j, direct);
      if !Considered(b[j], d) {
        DirectIsEarliestLaterWriter(b, d, j + 1, direct);
        forall i | j <= i < |b| && Considered(b[i], d) && AllActiveLater(b, d, j, i + 1)
          ensures i > j && AllActiveLater(b, d, j + 1, i + 1)
        {
        }
        if m.direct != direct {
          var i :| j + 1 <= i < |b| && Considered(b[i], d) && AllActiveLater(b, d, j + 1, i + 1) && b[i].task.task == m.direct;
          assert AllActiveLater(b, d, j, i + 1);
        }
      } else {
        var t := b[j].task.task;
        assert t in BucketTasks(b);
        if IsActive(t.state) && b[j].dep.phase >= d.phase {
          var direct' := if direct == null || direct.phase > b[j].dep.phase then t else direct;
          assert direct'.phase <= b[j].dep.phase;
          DirectIsEarliestLaterWriter(b, d, j + 1, direct');
          forall i | j < i < |b| && Considered(b[i], d) && AllActiveLater(b, d, j, i + 1)
            ensures AllActiveLater(b, d, j + 1, i + 1)
          {
          }
          if m.direct != direct && m.direct != direct' {
            var i :| j + 1 <= i < |b| && Considered(b[i], d) && AllActiveLater(b, d, j + 1, i + 1) && b[i].task.task == m.direct;
            assert AllActiveLater(b, d, j, i + 1);
          } else if m.direct != direct {
            assert AllActiveLater(b, d, j, j + 1);
          }
        } else {
          forall i | j <= i < |b| && Considered(b[i], d) && AllActiveLater(b, d, j, i + 1)
            ensures false
          {
          }
        }
      }
    }
  }

  /**
   * The candidate is the first active writer from an earlier phase, and it
   * is found only when every writer on the address before it is active and
   * from the request's phase or later.
   */
  lemma {:induction false} CandidateIsFirstEarlierWriter(b: seq<Entry>, d: Dep, j: nat, direct: Task?)
    requires j <= |b|
    ensures var m := RemoteScan(b, d, j, direct);
      m.candidate != null ==>
        exists i :: j <= i < |b| && Considered(b[i], d) && b[i].task.task == m.candidate && b[i].dep.phase < d.phase &&
          AllActiveLater(b, d, j, i)
    decreases |b| - j
  {
    var m := RemoteScan(b, d, j, direct);
    if j < |b| && m.candidate != null {
      if Considered(b[j], d) && b[j].dep.phase < d.phase {
        assert AllActiveLater(b, d, j, j);
      } else {
        var direct' := if Considered(b[j], d) && (direct == null || direct.phase > b[j].dep.phase)
          then b[j].task.task else direct;
        assert m == RemoteScan(b, d, j + 1, direct');
        CandidateIsFirstEarlierWriter(b, d, j + 1, direct');
        var i :| j + 1 <= i < |b| && Considered(b[i], d) && b[i].task.task == m.candidate && b[i].dep.phase < d.phase &&
          AllActiveLater(b, d, j + 1, i);
        assert AllActiveLater(b, d, j, i);
      }
    }
  }

  /** Every writer on the address between `j` and `i` is active and in the request's phase or later. */
  ghost predicate AllActiveLater(b: seq<Entry>, d: Dep, j: nat, i: nat)
    requires i <= |b|
    reads BucketTasks(b)`state
  {
    forall i' :: j <= i' < i && Considered(b[i'], d) ==>
      b[i'].task.task in BucketTasks(b) && IsActive(b[i'].task.task.state) && b[i'].dep.phase >= d.phase
  }

  /**
   * No writer on the address is inspected twice: when the walk from `j`
   * yields no candidate, either it ran into an inactive writer or every
   * writer from `j` on is active and in the request's phase or later.
   */
  lemma {:induction false} NoCandidateMeansNoEarlierActiveWriter(b: seq<Entry>, d: Dep, j: nat, direct: Task?)
    requires j <= |b|
    ensures RemoteScan(b, d, j, direct).candidate == null ==>
      (exists i :: j <= i < |b| && Considered(b[i], d) && !IsActive(b[i].task.task.state)) ||
      (forall i :: j <= i < |b| && Considered(b[i], d) ==> b[i].dep.phase >= d.phase)
    decreases |b| - j
  {
    if j < |b| {
      if !Considered(b[j], d) {
        NoCandidateMeansNoEarlierActiveWriter(b, d, j + 1, direct);
      } else {
        var t := b[j].task.task;
        if IsActive(t.state) && b[j].dep.phase >= d.phase {
          var direct' := if direct == null || direct.phase > b[j].dep.phase then t else direct;
          NoCandidateMeansNoEarlierActiveWriter(b, d, j + 1, direct');
        }
      }
    }
  }
}
