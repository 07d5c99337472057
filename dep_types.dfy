/**
 * Types shared by the task data-dependency engine: global pointers,
 * dependency descriptors, tasks, dependency-table entries and the effects the
 * engine hands to its collaborators (transport, scheduler, copy-in support).
 */
module DepTypes {

  datatype Option<T> = None | Some(value: T)

  const WordRange: int := 0x1_0000_0000_0000_0000   // 2^64

  /** A 64-bit unsigned word (uint64_t). */
  type Word = x: int | 0 <= x < WordRange

  /**
   * A global pointer (dart_gptr_t). The engine reads the address-or-offset
   * word as a 64-bit address; unit and segment ids are C integers.
   */
  datatype GPtr = GPtr(unitId: int, segId: int, teamId: int, flags: int, addr: Word)

  /** The pointer a direct dependency carries; none of its fields is ever read. */
  const NullGPtr := GPtr(0, 0, 0, 0, 0)

  /** dart_task_deptype_t */
  datatype DepType = In | Out | InOut | Direct | CopyIn | DelayedIn | Ignore

  /**
   * A dependency descriptor (dart_task_dep_t). The C struct keeps the pointer,
   * the task of a direct dependency and the copy-in payload in one union; the
   * model keeps them side by side and each operation reads only the one its
   * kind uses. Only the destination address of a copy-in is modelled.
   */
  datatype Dep = Dep(kind: DepType, gptr: GPtr, phase: int, task: Task?, copyinDest: Word)

  /** IS_OUT_DEP: the dependency writes its region. */
  predicate IsOutDep(d: Dep) {
    d.kind == Out || d.kind == InOut
  }

  /** DEP_ADDR_EQ: two dependencies refer to the same address (unit and segment are not compared). */
  predicate DepAddrEq(d1: Dep, d2: Dep) {
    d1.gptr.addr == d2.gptr.addr
  }

  /** Task states; Finished and Cancelled are terminal. */
  datatype TaskState = Root | Created | Queued | Deferred | Running | Finished | Cancelled

  /** IS_ACTIVE_TASK: a task that has not yet completed or been cancelled. */
  predicate IsActive(s: TaskState) {
    s != Finished && s != Cancelled
  }

  /** The union taskref: a local task, a task on another unit, or the all-zero value. */
  datatype TaskRef = NoTask | Local(task: Task) | Remote(id: int)

  /** dart_dephash_elem_t without its chain pointer: chains are sequences. */
  datatype Entry = Entry(dep: Dep, task: TaskRef, origin: int)

  /** An entry after `memset(elem, 0, ...)`; only its null task is ever inspected. */
  const Zeroed := Entry(Dep(In, NullGPtr, 0, null, 0), NoTask, 0)

  /** The tasks the entries of one bucket refer to. */
  ghost function BucketTasks(b: seq<Entry>): set<Task> {
    set j | 0 <= j < |b| && b[j].task.Local? :: b[j].task.task
  }

  /** Calls the engine makes into code outside it, in the order it makes them. */
  datatype Event =
    | RemoteRequest(dep: Dep, requester: Task)             // dart_tasking_remote_datadep
    | DirectEdge(target: int, local: Task, remote: TaskRef)   // dart_tasking_remote_direct_taskdep
    | RemoteRelease(origin: int, released: TaskRef, dep: Dep) // dart_tasking_remote_release
    | Runnable(runnable: Task)                             // dart__tasking__enqueue_runnable
    | CopyinRequested(dep: Dep, dest: GPtr, waiter: Task)  // dart_tasking_copyin_create_task

  /**
   * The part of dart_task_t this engine reads and writes. `localDeps` is the
   * dependency table of a task group (None until the first dependency is
   * filed); `successor` and `remoteSuccessor` are stacks with the newest
   * element first.
   */
  class Task {
    var phase: int
    var state: TaskState
    var unresolvedDeps: int
    var unresolvedRemoteDeps: int
    var successor: seq<Task>
    var remoteSuccessor: seq<Entry>
    var parent: Task?
    var localDeps: Option<seq<seq<Entry>>>

    constructor (parent: Task?, phase: int, state: TaskState)
      ensures this.parent == parent && this.phase == phase && this.state == state
      ensures unresolvedDeps == 0 && unresolvedRemoteDeps == 0
      ensures successor == [] && remoteSuccessor == [] && localDeps == None
    {
      this.parent := parent;
      this.phase := phase;
      this.state := state;
      unresolvedDeps, unresolvedRemoteDeps := 0, 0;
      successor, remoteSuccessor := [], [];
      localDeps := None;
    }
  }

  /** Number of occurrences of `x` in `s`. */
  function Count<T(==)>(s: seq<T>, x: T): nat {
    if s == [] then 0 else (if s[0] == x then 1 else 0) + Count(s[1..], x)
  }

  /** No more occurrences than elements, and none exactly when `x` is absent. */
  lemma {:induction false} CountBounds<T>(s: seq<T>, x: T)
    ensures Count(s, x) <= |s|
    ensures Count(s, x) == 0 <==> x !in s
  {
    if s != [] {
      CountBounds(s[1..], x);
      assert s == [s[0]] + s[1..];
    }
  }

  /** Occurrences add up over a concatenation. */
  lemma {:induction false} CountAppend<T>(a: seq<T>, b: seq<T>, x: T)
    ensures Count(a + b, x) == Count(a, x) + Count(b, x)
  {
    if a == [] {
      assert a + b == b;
    } else {
      assert (a + b)[1..] == a[1..] + b;
      CountAppend(a[1..], b, x);
    }
  }

  /**
   * Extending a prefix of `s` by one element adds one occurrence of `x` when
   * that element is `x` and none otherwise, and no prefix holds more
   * occurrences than the whole sequence.
   */
  lemma CountPrefixStep<T>(s: seq<T>, i: nat, x: T)
    requires i < |s|
    ensures Count(s[..i + 1], x) == Count(s[..i], x) + if x == s[i] then 1 else 0
    ensures Count(s[..i + 1], x) <= Count(s, x)
  {
    assert s[..i + 1] == s[..i] + [s[i]];
    CountAppend(s[..i], [s[i]], x);
    assert [s[i]][1..] == [];
    assert s == s[..i + 1] + s[i + 1..];
    CountAppend(s[..i + 1], s[i + 1..], x);
  }

  /** `n` zeroed entries. */
  function Zeroes(n: nat): (z: seq<Entry>) {
    if n == 0 then [] else [Zeroed] + Zeroes(n - 1)
  }

  /** There are `n` of them and each is zeroed. */
  lemma {:induction false} ZeroesAreZeroed(n: nat)
    ensures |Zeroes(n)| == n && forall e :: e in Zeroes(n) ==> e == Zeroed
  {
    if n > 0 {
      ZeroesAreZeroed(n - 1);
    }
  }

  /** Zeroed entries pushed in two rounds are as many zeroed entries as both rounds together. */
  lemma {:induction false} ZeroesAdd(a: nat, b: nat)
    ensures Zeroes(a) + Zeroes(b) == Zeroes(a + b)
  {
    if a > 0 {
      ZeroesAdd(a - 1, b);
      assert Zeroes(a) + Zeroes(b) == [Zeroed] + (Zeroes(a - 1) + Zeroes(b));
    }
  }
}
