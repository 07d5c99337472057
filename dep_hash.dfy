/**
 * The bucket index of a dependency (hash_gptr) and the shape of a task
 * group's dependency table.
 */
module DepHash {
  import opened DepTypes

  /** DART_DEPHASH_SIZE */
  const DepHashSize: nat := 1023

  /**
   * Bitwise exclusive or of two naturals, bit by bit from the lowest: the
   * `^` of two unsigned C integers of any width that holds both.
   */
  function Xor(a: nat, b: nat): nat
    decreases a + b
  {
    if a == 0 && b == 0 then 0 else 2 * Xor(a / 2, b / 2) + (a % 2 + b % 2) % 2
  }

  /** 2 to the power k. */
  function Pow2(k: nat): nat {
    if k == 0 then 1 else 2 * Pow2(k - 1)
  }

  /** Powers of two multiply by adding exponents. */
  lemma {:induction false} Pow2Add(k: nat, m: nat)
    ensures Pow2(k + m) == Pow2(k) * Pow2(m)
  {
    if m > 0 {
      Pow2Add(k, m - 1);
    }
  }

  /** 2^64 is the range of a 64-bit word. */
  lemma Pow2Word()
    ensures Pow2(64) == WordRange
  {
    assert Pow2(4) == 16;
    Pow2Add(4, 4);
    Pow2Add(8, 8);
    Pow2Add(16, 16);
    Pow2Add(32, 32);
  }

  /** Exclusive or never sets a bit above the highest bit of its operands. */
  lemma {:induction false} XorBelow(a: nat, b: nat, k: nat)
    requires a < Pow2(k) && b < Pow2(k)
    ensures Xor(a, b) < Pow2(k)
    decreases k
  {
    if a != 0 || b != 0 {
      XorBelow(a / 2, b / 2, k - 1);
    }
  }

  /**
   * The value hash_gptr mixes before the reduction: the address without its
   * two alignment bits, exclusive-or the segment id converted to uint32_t and
   * shifted by 16 within 32 bits, exclusive-or the unit id converted to
   * uint64_t and shifted by 32 within 64 bits. The team id is ignored.
   */
  function Mix(g: GPtr): nat {
    var segid := g.segId % 0x1_0000_0000;
    var unitid := g.unitId % WordRange;
    Xor(Xor(g.addr / 4, (segid * 0x1_0000) % 0x1_0000_0000), (unitid * 0x1_0000_0000) % WordRange)
  }

  /** The mixed value fits in the uint64_t hash_gptr computes it in: nothing is cut off. */
  lemma MixFitsWord(g: GPtr)
    ensures Mix(g) < WordRange
  {
    Pow2Word();
    var segid := g.segId % 0x1_0000_0000;
    var unitid := g.unitId % WordRange;
    XorBelow(g.addr / 4, (segid * 0x1_0000) % 0x1_0000_0000, 64);
    XorBelow(Xor(g.addr / 4, (segid * 0x1_0000) % 0x1_0000_0000), (unitid * 0x1_0000_0000) % WordRange, 64);
  }

  /** hash_gptr: the mixed value modulo the bucket count. */
  function HashGptr(g: GPtr): (slot: nat)
    ensures slot < DepHashSize
  {
    Mix(g) % DepHashSize
  }

  /** Addresses that differ only in their two low bits share a bucket. */
  lemma HashIgnoresAlignmentBits(g: GPtr, a: Word)
    requires a - a % 4 == g.addr - g.addr % 4
    ensures HashGptr(g.(addr := a)) == HashGptr(g)
  {
    assert a / 4 == g.addr / 4;
  }

  /** A table in the state calloc leaves it: every bucket empty. */
  function EmptyTable(): (t: seq<seq<Entry>>)
    ensures |t| == DepHashSize && forall i :: 0 <= i < |t| ==> t[i] == []
  {
    seq(DepHashSize, _ => [])
  }

  /** The buckets of a possibly unallocated table (a NULL table has no entries). */
  function Buckets(t: Option<seq<seq<Entry>>>): seq<seq<Entry>> {
    if t.Some? then t.value else EmptyTable()
  }

  /** A well-formed table: DepHashSize buckets, each entry owned by a local task. */
  ghost predicate TableOk(t: Option<seq<seq<Entry>>>) {
    t.Some? ==>
      |t.value| == DepHashSize &&
      forall i, j :: 0 <= i < |t.value| && 0 <= j < |t.value[i]| ==> t.value[i][j].task.Local?
  }

  /** The tasks the entries of a table refer to. */
  ghost function TableTasks(t: Option<seq<seq<Entry>>>): set<Task> {
    if t.None? then {} else
      set i, j | 0 <= i < |t.value| && 0 <= j < |t.value[i]| && t.value[i][j].task.Local?
        :: t.value[i][j].task.task
  }

  /** Every entry of a bucket of a well-formed table belongs to a local task the table refers to. */
  lemma BucketEntriesInTable(t: Option<seq<seq<Entry>>>, i: nat)
    requires TableOk(t) && t.Some? && i < |t.value|
    ensures forall k :: 0 <= k < |t.value[i]| ==> t.value[i][k].task.Local? && t.value[i][k].task.task in TableTasks(t)
  {
    forall k | 0 <= k < |t.value[i]| ensures t.value[i][k].task.task in TableTasks(t) {
      assert t.value[i][k].task.Local?;
    }
  }

  /** The tasks of one bucket are among the tasks of its table. */
  lemma BucketTasksInTable(t: Option<seq<seq<Entry>>>, i: nat)
    requires t.Some? && i < |t.value|
    ensures BucketTasks(t.value[i]) <= TableTasks(t)
  {
    forall x | x in BucketTasks(t.value[i]) ensures x in TableTasks(t) {
      var j :| 0 <= j < |t.value[i]| && t.value[i][j].task.Local? && t.value[i][j].task.task == x;
    }
  }

  /**
   * The table after dephash_add_local files `e`: allocated if it was not,
   * with `e` pushed at the head of the bucket its address hashes to.
   */
  function PushEntry(t: Option<seq<seq<Entry>>>, e: Entry): (r: seq<seq<Entry>>)
    requires TableOk(t)
    ensures |r| == DepHashSize
  {
    var bs := Buckets(t);
    var slot := HashGptr(e.dep.gptr);
    bs[slot := [e] + bs[slot]]
  }

  /**
   * Filing an entry of a local task keeps the table well formed, puts the
   * entry at the head of its bucket, shifts that bucket's old entries by
   * one, and leaves every other bucket as it was.
   */
  lemma PushEntryFilesAtHead(t: Option<seq<seq<Entry>>>, e: Entry)
    requires TableOk(t) && e.task.Local?
    ensures var r := PushEntry(t, e); var slot := HashGptr(e.dep.gptr);
      && TableOk(Some(r))
      && r[slot][0] == e && r[slot][1..] == Buckets(t)[slot]
      && (forall i :: 0 <= i < DepHashSize && i != slot ==> r[i] == Buckets(t)[i])
      && TableTasks(Some(r)) == TableTasks(t) + {e.task.task}
  {
    var r := PushEntry(t, e);
    var slot := HashGptr(e.dep.gptr);
    var bs := Buckets(t);
    assert r[slot][1..] == bs[slot];
    forall x | x in TableTasks(Some(r)) ensures x in TableTasks(t) + {e.task.task} {
      var i, j :| 0 <= i < |r| && 0 <= j < |r[i]| && r[i][j].task.Local? && r[i][j].task.task == x;
      if i == slot && j > 0 {
        assert r[i][j] == bs[slot][j - 1];
      } else if i != slot {
        assert r[i][j] == bs[i][j];
      }
    }
    forall x | x in TableTasks(t) + {e.task.task} ensures x in TableTasks(Some(r)) {
      if x == e.task.task {
        assert r[slot][0] == e;
      } else {
        var i, j :| 0 <= i < |t.value| && 0 <= j < |t.value[i]| && t.value[i][j].task.Local? && t.value[i][j].task.task == x;
        if i == slot {
          assert r[i][j + 1] == t.value[i][j];
        } else {
          assert r[i][j] == t.value[i][j];
        }
      }
    }
  }

  /**
   * Rewriting one bucket's entries in place, each keeping its task, keeps
   * the table well formed and refers to the same tasks.
   */
  lemma ReplaceBucketKeepsTasks(t: seq<seq<Entry>>, i: nat, nb: seq<Entry>)
    requires TableOk(Some(t)) && i < |t| && |nb| == |t[i]|
    requires forall j :: 0 <= j < |nb| ==> nb[j].task == t[i][j].task
    ensures TableOk(Some(t[i := nb]))
    ensures TableTasks(Some(t[i := nb])) == TableTasks(Some(t))
  {
    var r := t[i := nb];
    forall x | x in TableTasks(Some(r)) ensures x in TableTasks(Some(t)) {
      var i', j :| 0 <= i' < |r| && 0 <= j < |r[i']| && r[i'][j].task.Local? && r[i'][j].task.task == x;
      assert t[i'][j].task == r[i'][j].task;
    }
    forall x | x in TableTasks(Some(t)) ensures x in TableTasks(Some(r)) {
      var i', j :| 0 <= i' < |t| && 0 <= j < |t[i']| && t[i'][j].task.Local? && t[i'][j].task.task == x;
      assert t[i'][j].task == r[i'][j].task;
    }
  }
}
