/**
 * Model of fixed_vector<T> (basetypes.h).
 *
 * fixed_vector is a non-resizable vector: an owned array `p` of `n` elements,
 * with `p` null exactly when the vector is empty. resize() and clear() drop
 * the old array; assignment copies into a fresh array and swaps it in.
 * matrix<T>, built on it, is in module Matrices.
 */
module BaseTypes {

  /** The range of the C++ `int` that the size constructor takes. */
  newtype Int32 = x: int | -0x8000_0000 <= x < 0x8000_0000

  /** Values of the 64-bit `size_t` that holds `n`. */
  const SizeMax: nat := 0xFFFF_FFFF_FFFF_FFFF

  class FixedVector<T(0)> {
    var p: array?<T>    // pointer array; null when empty
    var n: nat          // number of elements

    ghost predicate Valid()
      reads this
    {
      (p == null <==> n == 0) && (p != null ==> p.Length == n)
    }

    /** The elements, in order. */
    ghost function Contents(): (s: seq<T>)
      reads this, p
      requires Valid()
      ensures |s| == n
    {
      if p == null then [] else p[..]
    }

    /** fixed_vector(): the empty vector. */
    constructor ()
      ensures Valid() && n == 0 && p == null
    {
      p, n := null, 0;
    }

    /** fixed_vector(int size), with a non-positive size giving the empty vector. */
    constructor Sized(size: int)
      ensures Valid() && n == (if size > 0 then size else 0) && (p == null || fresh(p))
    {
      if size > 0 {
        p := new T[size];
        n := size;
      } else {
        p, n := null, 0;
      }
    }

    /** size(): the length of the owned array, 0 when there is none. */
    function Size(): (r: int)
      reads this
      ensures Valid() ==> r == if p == null then 0 else p.Length
    {
      n
    }

    predicate Empty()
      reads this, p
      requires Valid()
      ensures Empty() <==> Contents() == []
    {
      n == 0
    }

    /** delete[] p; the vector becomes empty. */
    method Clear()
      modifies this
      ensures Valid() && Empty()
    {
      p, n := null, 0;
    }

    /** clear(), then a fresh array of `size` elements when size > 0. */
    method Resize(size: int)
      modifies this
      ensures Valid() && Size() == (if size > 0 then size else 0)
      ensures size > 0 ==> fresh(p)
    {
      Clear();
      if size > 0 {
        p := new T[size];
        n := size;
      }
    }

    /** operator[] for reading: requires 0 <= index < n. */
    function At(index: int): (x: T)
      reads this, p
      requires Valid() && 0 <= index < n
      ensures x == Contents()[index]
    {
      p[index]
    }

    /** operator[] for writing: element `index` becomes x and no other changes. */
    method Put(index: int, x: T)
      requires Valid() && 0 <= index < n
      modifies p
      ensures Valid() && Contents() == old(Contents())[index := x]
    {
      p[index] := x;
    }

    /** Exchanges the arrays and sizes of the two vectors; nothing else changes. */
    method Swap(other: FixedVector<T>)
      modifies this, other
      ensures p == old(other.p) && n == old(other.n)
      ensures other.p == old(p) && other.n == old(n)
    {
      var tp, tn := p, n;
      p, n := other.p, other.n;
      other.p, other.n := tp, tn;
    }

    /**
     * operator=(const fixed_vector &): copies other's elements into a fresh
     * vector tmp, then swaps tmp in. Self-assignment is allowed.
     */
    method Assign(other: FixedVector<T>)
      requires Valid() && other.Valid()
      modifies this
      ensures Valid() && Contents() == old(other.Contents())
      ensures other != this ==> other.p == old(other.p) && other.n == old(other.n)
      ensures p == null || fresh(p)
    {
      var otherN, src := other.n, other.p;
      var tmp := new FixedVector<T>.Sized(otherN);
      for k := 0 to otherN
        invariant tmp.Valid() && tmp.n == otherN
        invariant forall i :: 0 <= i < k ==> tmp.p[i] == src[i]
        modifies tmp.p
      {
        tmp.p[k] := src[k];
      }
      assert tmp.Contents() == old(other.Contents());
      Swap(tmp);
    }

    /** operator=(const VECTOR &) for any vector offering size() and operator[]. */
    method AssignFrom(other: seq<T>)
      modifies this
      ensures Valid() && Contents() == other
      ensures p == null || fresh(p)
    {
      var otherN := |other|;
      var tmp := new FixedVector<T>.Sized(otherN);
      for k := 0 to otherN
        invariant tmp.Valid() && tmp.n == otherN
        invariant forall i :: 0 <= i < k ==> tmp.p[i] == other[i]
        modifies tmp.p
      {
        tmp.p[k] := other[k];
      }
      assert tmp.Contents() == other;
      Swap(tmp);
    }
  }

  // ---------------------------------------------------------------------------
  // The int size constructor as written: n takes size converted to size_t,
  // and an array is allocated only when size > 0
  // ---------------------------------------------------------------------------

  /** The fields fixed_vector(int size) sets: n, and whether p is non-null. */
  datatype RawFields = RawFields(n: nat, hasArray: bool)

  /** n converts the int to size_t (modulo 2^64); p is allocated only for size > 0. */
  function IntCtorAsWritten(size: Int32): (f: RawFields)
    ensures f.n < SizeMax + 1
    ensures size >= 0 ==> f.n == size as int
    ensures size < 0 ==> f.n == size as int + SizeMax + 1
    ensures f.hasArray <==> size > 0
  {
    RawFields((size as int) % (SizeMax + 1), size > 0)
  }

  /** Consistency of the raw fields: an array exactly when the size is non-zero. */
  predicate RawValid(f: RawFields)
  {
    f.hasArray <==> f.n != 0
  }

  /** fixed_vector(-1) claims 2^64 - 1 elements with a null array. */
  lemma IntCtorNegativeSize()
    ensures IntCtorAsWritten(-1) == RawFields(SizeMax, false)
    ensures !RawValid(IntCtorAsWritten(-1))
  {
  }
}
