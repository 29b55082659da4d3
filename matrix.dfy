/**
 * Model of matrix<T> (basetypes.h): a fixed-size 2-D array stored as the
 * concatenation of its rows in a fixed_vector. Element (i, j) lives at offset
 * i * cols() + j; rows() is the size divided by the number of columns.
 */
module Matrices {
  import opened BaseTypes

  // ---------------------------------------------------------------------------
  // Row-major index arithmetic
  // ---------------------------------------------------------------------------

  /** An in-range (i, j) lands inside the rows * cols elements. */
  lemma LocateInRange(i: nat, j: nat, rows: nat, cols: nat)
    requires i < rows && j < cols
    ensures i * cols + j < rows * cols
  {
    assert (i + 1) * cols <= rows * cols by {
      MulMonotone(i + 1, rows, cols);
    }
  }

  lemma MulMonotone(a: nat, b: nat, c: nat)
    requires a <= b
    ensures a * c <= b * c
  {
  }

  /** Two in-range positions with the same offset are the same position. */
  lemma LocateInjective(i1: nat, j1: nat, i2: nat, j2: nat, cols: nat)
    requires j1 < cols && j2 < cols
    requires i1 * cols + j1 == i2 * cols + j2
    ensures i1 == i2 && j1 == j2
  {
    if i1 < i2 {
      MulMonotone(i1 + 1, i2, cols);
    } else if i2 < i1 {
      MulMonotone(i2 + 1, i1, cols);
    }
  }

  /** Every offset below rows * cols is the location of exactly one (i, j). */
  lemma LocateOnto(k: nat, rows: nat, cols: nat)
    requires k < rows * cols
    ensures cols > 0 && k / cols < rows && k % cols < cols
    ensures (k / cols) * cols + k % cols == k
  {
    if k / cols >= rows {
      MulMonotone(rows, k / cols, cols);
    }
  }

  /** (n * m) / m == n for m > 0: resize(n, m) gives n rows. */
  lemma DivOfProduct(n: nat, m: nat)
    requires m > 0
    ensures (n * m) / m == n && (n * m) % m == 0
  {
    var q, r := (n * m) / m, (n * m) % m;
    assert q * m + r == n * m;
    if q < n {
      MulMonotone(q + 1, n, m);
    } else if q > n {
      MulMonotone(n + 1, q, m);
    }
  }

  class Matrix<T(0)> {
    const elems: FixedVector<T>   // the private base class: rows stored one after the other
    var numcols: nat

    ghost predicate Valid()
      reads this, elems
    {
      && elems.Valid()
      && (numcols == 0 ==> elems.n == 0)
      && (numcols > 0 ==> elems.n % numcols == 0)
    }

    /** The elements in row-major order. */
    ghost function Elements(): seq<T>
      reads this, elems, elems.p
      requires Valid()
    {
      elems.Contents()
    }

    /** matrix(): no columns, no elements. */
    constructor ()
      ensures Valid() && fresh(elems) && Size() == 0 && Cols() == 0 && Rows() == 0
    {
      elems := new FixedVector<T>();
      numcols := 0;
    }

    /** matrix(n, m): resize(n, m) on an empty matrix. */
    constructor Sized(n: nat, m: nat)
      ensures Valid() && fresh(elems) && Size() == n * m && Cols() == m
      ensures Rows() == if n * m > 0 then n else 0
      ensures elems.p == null || fresh(elems.p)
    {
      elems := new FixedVector<T>.Sized(n * m);
      numcols := m;
      new;
      if m > 0 { DivOfProduct(n, m); }
    }

    /** cols(): the elements divide into whole rows of this many; no columns means no elements. */
    function Cols(): (c: nat)
      reads this, elems
      ensures Valid() ==> (c == 0 ==> Size() == 0) && (c > 0 ==> Size() % c == 0)
    {
      numcols
    }

    /** size(): the length of the storage array, 0 when there is none. */
    function Size(): (r: nat)
      reads this, elems
      ensures Valid() ==> r == if elems.p == null then 0 else elems.p.Length
    {
      elems.n
    }

    /** rows(): 0 when empty, else size() / cols(); rows() * cols() is the size. */
    function Rows(): (r: nat)
      reads this, elems
      requires Valid()
      ensures r * Cols() == Size()
      ensures Size() == 0 ==> r == 0
    {
      if elems.n == 0 then 0 else elems.n / numcols
    }

    /** locate(i, j): the offset of element (i, j); requires i < rows() and j < cols(). */
    function Locate(i: nat, j: nat): (k: nat)
      reads this, elems
      requires Valid() && i < Rows() && j < Cols()
      ensures k < Size()
      ensures k / Cols() == i && k % Cols() == j
    {
      LocateInRange(i, j, Rows(), Cols());
      LocateDivMod(i, j, Cols());
      i * numcols + j
    }

    /** operator()(i, j) for reading. */
    function At(i: nat, j: nat): (x: T)
      reads this, elems, elems.p
      requires Valid() && i < Rows() && j < Cols()
      ensures x == Elements()[Locate(i, j)]
    {
      elems.At(Locate(i, j))
    }

    /** operator()(i, j) for writing: only element (i, j) changes. */
    method Put(i: nat, j: nat, x: T)
      requires Valid() && i < Rows() && j < Cols()
      modifies elems.p
      ensures Valid() && Elements() == old(Elements())[Locate(i, j) := x]
    {
      elems.Put(Locate(i, j), x);
    }

    /** resize(n, m): numcols = m, then the storage is resized to n * m elements. */
    method Resize(n: nat, m: nat)
      requires Valid()
      modifies this, elems
      ensures Valid() && Size() == n * m && Cols() == m
      ensures Rows() == if n * m > 0 then n else 0
      ensures elems.p == null || fresh(elems.p)
    {
      numcols := m;
      elems.Resize(n * m);
      if m > 0 { DivOfProduct(n, m); }
    }

    /** swap(): exchanges the column counts and the storage of two matrices. */
    method Swap(other: Matrix<T>)
      requires Valid() && other.Valid()
      requires other != this ==> other.elems != elems
      modifies this, other, elems, other.elems
      ensures Valid() && other.Valid()
      ensures numcols == old(other.numcols) && other.numcols == old(numcols)
      ensures elems.p == old(other.elems.p) && elems.n == old(other.elems.n)
      ensures other.elems.p == old(elems.p) && other.elems.n == old(elems.n)
    {
      var t := numcols;
      numcols := other.numcols;
      other.numcols := t;
      elems.Swap(other.elems);
    }
  }

  lemma LocateDivMod(i: nat, j: nat, cols: nat)
    requires j < cols
    ensures (i * cols + j) / cols == i && (i * cols + j) % cols == j
  {
    var k := i * cols + j;
    LocateInjective(k / cols, k % cols, i, j, cols);
  }
}
