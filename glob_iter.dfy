/**
 * The position arithmetic of dash::GlobIter, a random-access iterator over a
 * global array. Its index is a `size_t`, so every change to it wraps modulo
 * 2^64; offsets and distances are `gptrdiff_t` (a signed 64-bit integer).
 * Dereference, subscript and locality queries go through the pattern and the
 * global memory and are not modelled.
 */
module GlobIterator {

  const SizeRange: int := 0x1_0000_0000_0000_0000   // 2^64
  const DiffBound: int := 0x8000_0000_0000_0000     // 2^63

  /** size_t */
  type SizeT = x: int | 0 <= x < SizeRange

  /** gptrdiff_t (long long) */
  type PtrDiff = x: int | -DiffBound <= x < DiffBound

  /** Conversion of an integer to size_t: reduction modulo 2^64. */
  function Wrap(x: int): SizeT {
    x % SizeRange
  }

  /** Conversion of a size_t to gptrdiff_t (two's complement). */
  function ToDiff(x: SizeT): (d: PtrDiff)
    ensures Wrap(d) == x
    ensures x < DiffBound ==> d == x
  {
    if x < DiffBound then x else x - SizeRange
  }

  /** `m_idx + n`, the index `+`, `+=` and prefix/postfix `++` (n = 1) compute. */
  function Advance(idx: SizeT, n: int): SizeT {
    Wrap(idx + n)
  }

  /** `m_idx - other.m_idx` converted to gptrdiff_t: what `it1 - it2` returns. */
  function Diff(i: SizeT, j: SizeT): PtrDiff {
    ToDiff(Wrap(i - j))
  }

  /** `+= n` followed by `-= n` (and `it + n - n`) gives back the index. */
  lemma AdvanceBack(idx: SizeT, n: int)
    requires -SizeRange < n < SizeRange
    ensures Advance(Advance(idx, n), -n) == idx
  {
    var s := idx + n;
    if s < 0 {
      assert Advance(idx, n) == s + SizeRange;
    } else if s >= SizeRange {
      assert Advance(idx, n) == s - SizeRange;
    } else {
      assert Advance(idx, n) == s;
    }
  }

  /**
   * Converting the offset to size_t before adding or subtracting it, as
   * `it + n` and `it - n` do, gives the same index as `+=` and `-=`.
   */
  lemma WrapOffset(idx: SizeT, n: PtrDiff)
    ensures Wrap(idx + Wrap(n)) == Advance(idx, n)
    ensures Wrap(idx - Wrap(n)) == Advance(idx, -(n as int))
  {
    if n < 0 {
      var s := idx + n;
      var t := idx - n;
      assert Wrap(n) == n + SizeRange;
      if s < 0 { assert Wrap(s + SizeRange) == s + SizeRange == Wrap(s); }
      else { assert Wrap(s + SizeRange) == s == Wrap(s); }
      if t < SizeRange { assert Wrap(t - SizeRange) == t == Wrap(t); }
      else { assert Wrap(t - SizeRange) == t - SizeRange == Wrap(t); }
    }
  }

  /** `(it + n) - it == n` for every offset n, wrap-around included. */
  lemma DiffOfAdvance(idx: SizeT, n: PtrDiff)
    ensures Diff(Advance(idx, n), idx) == n
  {
    var a := Advance(idx, n);
    assert Wrap(a - idx) == Wrap(n) by {
      var s := idx + n;
      if s < 0 {
        assert a == s + SizeRange;
        assert (n + SizeRange) % SizeRange == Wrap(n);
      } else if s >= SizeRange {
        assert a == s - SizeRange;
        assert (n - SizeRange) % SizeRange == Wrap(n);
      } else {
        assert a == s;
      }
    }
    if n < 0 {
      assert Wrap(n) == n + SizeRange;
    } else {
      assert Wrap(n) == n;
    }
  }

  /** dash::GlobIter: the global memory, the pattern and the index. */
  class GlobIter {
    var globmem: nat  // GlobMem pointer; 0 stands for nullptr
    var pattern: nat  // Pattern pointer; 0 stands for nullptr
    var idx: SizeT

    /** Default constructor: null memory and pattern, index 0. */
    constructor Default()
      ensures globmem == 0 && pattern == 0 && idx == 0 && Pos() == 0
    {
      globmem, pattern, idx := 0, 0, 0;
    }

    /** GlobIter(mem, pat, idx = 0) */
    constructor (mem: nat, pat: nat, idx: SizeT)
      ensures globmem == mem && pattern == pat && this.idx == idx
    {
      globmem, pattern, this.idx := mem, pat, idx;
    }

    /** GlobIter(mem, pat) with the index left to its default: the first position. */
    constructor AtStart(mem: nat, pat: nat)
      ensures globmem == mem && pattern == pat && idx == 0 && Pos() == 0
    {
      globmem, pattern, idx := mem, pat, 0;
    }

    /** pos(): the index converted to gptrdiff_t. */
    function Pos(): (p: PtrDiff)
      reads this`idx
      ensures Wrap(p) == idx
      ensures idx < DiffBound ==> p == idx
    {
      ToDiff(idx)
    }

    /** Prefix `++`: one step forward; returns this iterator. */
    method Increment() returns (r: GlobIter)
      modifies this`idx
      ensures r == this && idx == Advance(old(idx), 1)
    {
      idx := Wrap(idx + 1);
      r := this;
    }

    /** Postfix `++`: one step forward; returns a copy made before the step. */
    method PostIncrement() returns (r: GlobIter)
      modifies this`idx
      ensures fresh(r) && idx == Advance(old(idx), 1)
      ensures r.idx == old(idx) && r.globmem == globmem && r.pattern == pattern
    {
      r := new GlobIter(globmem, pattern, idx);
      idx := Wrap(idx + 1);
    }

    /** Prefix `--`: one step back; returns this iterator. */
    method Decrement() returns (r: GlobIter)
      modifies this`idx
      ensures r == this && idx == Advance(old(idx), -1)
    {
      idx := Wrap(idx - 1);
      r := this;
    }

    /** Postfix `--`: one step back; returns a copy made before the step. */
    method PostDecrement() returns (r: GlobIter)
      modifies this`idx
      ensures fresh(r) && idx == Advance(old(idx), -1)
      ensures r.idx == old(idx) && r.globmem == globmem && r.pattern == pattern
    {
      r := new GlobIter(globmem, pattern, idx);
      idx := Wrap(idx - 1);
    }

    /** `+= n`; returns this iterator. */
    method AddAssign(n: PtrDiff) returns (r: GlobIter)
      modifies this`idx
      ensures r == this && idx == Advance(old(idx), n)
    {
      idx := Wrap(idx + n);
      r := this;
    }

    /** `-= n`; returns this iterator. */
    method SubAssign(n: PtrDiff) returns (r: GlobIter)
      modifies this`idx
      ensures r == this && idx == Advance(old(idx), -(n as int))
    {
      idx := Wrap(idx - n);
      r := this;
    }

    /** `it + n`: a new iterator on the same memory and pattern, n further on. */
    method Plus(n: PtrDiff) returns (r: GlobIter)
      ensures fresh(r) && r.globmem == globmem && r.pattern == pattern
      ensures r.idx == Advance(idx, n) && Diff(r.idx, idx) == n
    {
      WrapOffset(idx, n);
      DiffOfAdvance(idx, n);
      r := new GlobIter(globmem, pattern, Wrap(idx + Wrap(n)));
    }

    /** `it - n`: a new iterator on the same memory and pattern, n back. */
    method Minus(n: PtrDiff) returns (r: GlobIter)
      ensures fresh(r) && r.globmem == globmem && r.pattern == pattern
      ensures r.idx == Advance(idx, -(n as int)) && Advance(r.idx, n) == idx
    {
      var k := Wrap(idx - Wrap(n));
      WrapOffset(idx, n);
      AdvanceBack(idx, -(n as int));
      assert -(-(n as int)) == n as int;
      r := new GlobIter(globmem, pattern, k);
    }

    /** `it1 + it2`: the sum of the two indices as gptrdiff_t. */
    function Sum(other: GlobIter): (s: PtrDiff)
      reads this`idx, other`idx
      ensures Wrap(s) == Wrap(idx + other.idx)
    {
      ToDiff(Wrap(idx + other.idx))
    }

    /**
     * `it1 - it2`: the difference of the indices modulo 2^64, which is the
     * exact difference whenever that fits in a gptrdiff_t.
     */
    function Distance(other: GlobIter): (d: PtrDiff)
      reads this`idx, other`idx
      ensures Wrap(d) == Wrap(idx - other.idx)
      ensures -DiffBound <= idx - other.idx < DiffBound ==> d == idx - other.idx
    {
      Diff(idx, other.idx)
    }

    predicate Less(other: GlobIter)
      reads this`idx, other`idx
    {
      idx < other.idx
    }

    predicate LessEq(other: GlobIter)
      reads this`idx, other`idx
    {
      idx <= other.idx
    }

    predicate Greater(other: GlobIter)
      reads this`idx, other`idx
    {
      idx > other.idx
    }

    predicate GreaterEq(other: GlobIter)
      reads this`idx, other`idx
    {
      idx >= other.idx
    }

    predicate Equal(other: GlobIter)
      reads this`idx, other`idx
    {
      idx == other.idx
    }

    predicate NotEqual(other: GlobIter)
      reads this`idx, other`idx
    {
      idx != other.idx
    }
  }

  /**
   * The comparisons agree with the distance: `==` holds exactly when the
   * distance is 0, and while both indices stay below 2^63 `<` agrees with
   * the sign of the distance.
   */
  lemma {:induction false} ComparisonsFollowIndex(a: GlobIter, b: GlobIter)
    ensures a.Equal(b) <==> a.Distance(b) == 0
    ensures a.idx < DiffBound && b.idx < DiffBound ==> (a.Less(b) <==> a.Distance(b) < 0)
  {
    if a.idx < b.idx {
      assert Wrap(a.idx - b.idx) == a.idx - b.idx + SizeRange;
    } else {
      assert Wrap(a.idx - b.idx) == a.idx - b.idx;
    }
  }
}
