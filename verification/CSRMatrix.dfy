/**
 Compressed sparse rows (predictors/CSRMatrix.hpp). Adding a column makes room in the arrays of values and
 of column numbers by shifting every row by a running offset; the result is the matrix with the column, or
 the one-hot block, on its right.
 */
module CSRMatrix {

  datatype Entry = Entry(col: nat, value: real)

  /** The entries row by row, and the number of columns. */
  datatype Matrix = Matrix(rows: seq<seq<Entry>>, ncols: nat)

  /** A discrete or numerical column, or a categorical one, in which negative codes are null. */
  datatype Column = Numerical(values: seq<real>) | Categorical(codes: seq<int>, nUnique: nat)

  // ------------------------------------------------------------------------
  // What the operations do to a matrix.

  ghost function Length(c: Column): nat {
    if c.Numerical? then |c.values| else |c.codes|
  }

  ghost function Width(c: Column): nat {
    if c.Numerical? then 1 else c.nUnique
  }

  /** The entries of a column in row i, with the column numbers beginning at `offset`. */
  ghost function EntriesOf(c: Column, i: nat, offset: nat): seq<Entry>
    requires i < Length(c)
  {
    if c.Numerical? then [Entry(offset, c.values[i])]
    else if c.codes[i] >= 0 then [Entry(offset + c.codes[i], 1.0)]
    else []
  }

  /** A constructor from a column. */
  ghost function FromColumn(c: Column): Matrix {
    Matrix(seq(Length(c), i requires 0 <= i < Length(c) => EntriesOf(c, i, 0)), Width(c))
  }

  /** add: a matrix without columns is replaced. */
  ghost function Add(m: Matrix, c: Column): Matrix
    requires m.ncols > 0 ==> Length(c) == |m.rows|
  {
    if m.ncols == 0 then FromColumn(c)
    else Matrix(seq(|m.rows|, i requires 0 <= i < |m.rows| => m.rows[i] + EntriesOf(c, i, m.ncols)), m.ncols + Width(c))
  }

  // ------------------------------------------------------------------------
  // The arrays.

  /** indptr begins at 0, is monotone and ends at the number of entries. */
  ghost predicate Pointers(p: seq<nat>, n: nat) {
    && |p| >= 1 && p[0] == 0 && p[|p| - 1] == n
    && forall i, j | 0 <= i <= j < |p| :: p[i] <= p[j]
  }

  ghost function RowLength(p: seq<nat>, i: nat): int
    requires i < |p| - 1
  {
    p[i + 1] as int - p[i]
  }

  ghost function Slice<T>(a: seq<T>, p: seq<nat>, i: nat): seq<T>
    requires Pointers(p, |a|) && i < |p| - 1
  {
    a[p[i]..p[i + 1]]
  }

  ghost function RowOf(data: seq<real>, indices: seq<nat>, p: seq<nat>, i: nat): (r: seq<Entry>)
    requires |data| == |indices| && Pointers(p, |data|) && i < |p| - 1
    ensures |r| == p[i + 1] - p[i]
    ensures forall k | 0 <= k < |r| :: r[k] == Entry(Slice(indices, p, i)[k], Slice(data, p, i)[k])
  {
    seq(p[i + 1] - p[i], k requires 0 <= k < p[i + 1] - p[i] => Entry(Slice(indices, p, i)[k], Slice(data, p, i)[k]))
  }

  ghost function RowsOf(data: seq<real>, indices: seq<nat>, p: seq<nat>): (rows: seq<seq<Entry>>)
    requires |data| == |indices| && Pointers(p, |data|)
    ensures |rows| == |p| - 1 && forall i | 0 <= i < |rows| :: rows[i] == RowOf(data, indices, p, i)
  {
    seq(|p| - 1, i requires 0 <= i < |p| - 1 => RowOf(data, indices, p, i))
  }

  /** The number of codes that are not null, before row i. */
  ghost function NonNegative(codes: seq<int>, i: nat): nat
    requires i <= |codes|
  {
    if i == 0 then 0 else NonNegative(codes, i - 1) + if codes[i - 1] >= 0 then 1 else 0
  }

  lemma {:induction false} NonNegativeMonotone(codes: seq<int>, i: nat, j: nat)
    requires i <= j <= |codes|
    ensures NonNegative(codes, i) <= NonNegative(codes, j)
  {
    if i < j { NonNegativeMonotone(codes, i, j - 1); }
  }

  lemma NonNegativeStep(codes: seq<int>, i: nat)
    requires i < |codes|
    ensures NonNegative(codes, i + 1) == NonNegative(codes, i) + if codes[i] >= 0 then 1 else 0
  {
  }

  /** std::copy */
  method Copy<T>(src: array<T>, lo: nat, hi: nat, dst: array<T>, at: nat)
    requires src != dst && lo <= hi <= src.Length && at + (hi - lo) <= dst.Length
    modifies dst
    ensures dst[..] == old(dst[..at]) + src[lo..hi] + old(dst[at + (hi - lo)..])
  {
    var k := lo;
    while k < hi
      invariant lo <= k <= hi
      invariant forall j | 0 <= j < dst.Length ::
                  dst[j] == if at <= j < at + (k - lo) then src[lo + (j - at)] else old(dst[j])
    {
      dst[at + (k - lo)] := src[k];
      k := k + 1;
    }
  }

  /** The arrays hold these rows. */
  lemma RowsAre(data: seq<real>, indices: seq<nat>, p: seq<nat>, rows: seq<seq<Entry>>)
    requires |data| == |indices| && Pointers(p, |data|) && |rows| == |p| - 1
    requires forall i | 0 <= i < |rows| :: IsRow(data, indices, p, i, rows[i])
    ensures RowsOf(data, indices, p) == rows
  {
    forall i | 0 <= i < |rows| ensures RowOf(data, indices, p, i) == rows[i] {
      assert IsRow(data, indices, p, i, rows[i]);
    }
  }

  ghost predicate IsRow(data: seq<real>, indices: seq<nat>, p: seq<nat>, i: nat, row: seq<Entry>)
    requires |data| == |indices| && Pointers(p, |data|) && i < |p| - 1
  {
    && |row| == p[i + 1] - p[i]
    && forall k | 0 <= k < |row| :: row[k] == Entry(indices[p[i] + k], data[p[i] + k])
  }

  // ------------------------------------------------------------------------
  // Making room.

  /** The pointers after one more element in every row. */
  ghost function FloatPointers(p: seq<nat>): (q: seq<nat>)
    ensures |q| == |p| && forall i {:trigger q[i]} | 0 <= i < |p| :: q[i] == p[i] + i
  {
    seq(|p|, i requires 0 <= i < |p| => p[i] + i)
  }

  /** The pointers after one more element in every row whose code is not null. */
  ghost function IntPointers(p: seq<nat>, codes: seq<int>): (q: seq<nat>)
    requires |p| == |codes| + 1
    ensures |q| == |p| && forall i {:trigger q[i]} | 0 <= i < |p| :: q[i] == p[i] + NonNegative(codes, i)
  {
    seq(|p|, i requires 0 <= i < |p| => p[i] + NonNegative(codes, i))
  }

  lemma IntPointersValid(p: seq<nat>, codes: seq<int>, n: nat)
    requires Pointers(p, n) && |p| == |codes| + 1
    ensures Pointers(IntPointers(p, codes), n + NonNegative(codes, |codes|))
  {
    forall i, j | 0 <= i <= j < |p| ensures IntPointers(p, codes)[i] <= IntPointers(p, codes)[j] {
      NonNegativeMonotone(codes, i, j);
    }
  }

  function Same<T>(n: nat, x: T): (r: seq<T>)
    ensures |r| == n && forall i | 0 <= i < n :: r[i] == x
  {
    seq(n, i => x)
  }

  /** The column numbers of the codes; those of null codes are not used. */
  function Offset(codes: seq<int>, offset: nat): (r: seq<nat>)
    ensures |r| == |codes| && forall i | 0 <= i < |codes| && codes[i] >= 0 :: r[i] == codes[i] + offset
  {
    seq(|codes|, i requires 0 <= i < |codes| => if codes[i] >= 0 then codes[i] + offset else 0)
  }

  /** One new element for every row. */
  ghost function Each<T>(col: seq<T>): (r: seq<seq<T>>)
    ensures |r| == |col| && forall i | 0 <= i < |col| :: r[i] == [col[i]]
  {
    seq(|col|, i requires 0 <= i < |col| => [col[i]])
  }

  /** One new element for every row whose code is not null. */
  ghost function NotNull<T>(codes: seq<int>, col: seq<T>): (r: seq<seq<T>>)
    requires |codes| == |col|
    ensures |r| == |col| && forall i {:trigger r[i]} | 0 <= i < |col| :: r[i] == Maybe(codes[i] >= 0, col[i])
  {
    seq(|col|, i requires 0 <= i < |col| => Maybe(codes[i] >= 0, col[i]))
  }

  ghost function Maybe<T>(b: bool, x: T): (r: seq<T>)
    ensures |r| == if b then 1 else 0
  {
    if b then [x] else []
  }

  /** The first n rows of t are the rows of a with their new elements. */
  ghost predicate Placed<T>(t: seq<T>, q: seq<nat>, a: seq<T>, p: seq<nat>, extra: seq<seq<T>>, n: nat) {
    && Pointers(p, |a|) && Pointers(q, |t|) && |q| == |p| && |extra| == |p| - 1 && n <= |extra|
    && (forall i | 0 <= i < |extra| :: RowLength(q, i) == RowLength(p, i) + |extra[i]|)
    && forall i | 0 <= i < n :: Slice(t, q, i) == Slice(a, p, i) + extra[i]
  }

  lemma NoFloatsPlaced<T>(t: seq<T>, a: seq<T>, p: seq<nat>, col: seq<T>)
    requires Pointers(p, |a|) && |col| == |p| - 1 && |t| == |a| + |col|
    ensures Placed(t, FloatPointers(p), a, p, Each(col), 0)
  {
    var q := FloatPointers(p);
    forall i, j | 0 <= i <= j < |q| ensures q[i] <= q[j] {
      assert p[i] <= p[j];
    }
  }

  lemma NoIntsPlaced<T>(t: seq<T>, a: seq<T>, p: seq<nat>, codes: seq<int>, col: seq<T>)
    requires Pointers(p, |a|) && |codes| == |col| == |p| - 1 && |t| == |a| + NonNegative(codes, |codes|)
    ensures Placed(t, IntPointers(p, codes), a, p, NotNull(codes, col), 0)
  {
    IntPointersValid(p, codes, |a|);
    forall i | 0 <= i < |col|
      ensures RowLength(IntPointers(p, codes), i) == RowLength(p, i) + |NotNull(codes, col)[i]|
    {
      NonNegativeStep(codes, i);
    }
  }

  /** A row was copied to `at`, and then there may be one more element. */
  lemma CopiedRow<T>(before: seq<T>, copied: seq<T>, after: seq<T>, row: seq<T>, at: nat, add: bool, x: T, n: nat)
    requires at + |row| + |Maybe(add, x)| <= n <= |before|
    requires copied == before[..at] + row + before[at + |row|..]
    requires after == if add then copied[at + |row| := x] else copied
    ensures |after| == |before|
    ensures after[..n] == before[..n][..at] + (row + Maybe(add, x)) + before[..n][at + |row| + |Maybe(add, x)|..]
  {
  }

  lemma PlaceRow<T>(t: seq<T>, t': seq<T>, q: seq<nat>, a: seq<T>, p: seq<nat>, extra: seq<seq<T>>, n: nat)
    requires Placed(t, q, a, p, extra, n) && n < |extra| && |t'| == |t|
    requires t' == t[..q[n]] + (Slice(a, p, n) + extra[n]) + t[q[n + 1]..]
    ensures Placed(t', q, a, p, extra, n + 1)
  {
    forall i | 0 <= i < n ensures Slice(t', q, i) == Slice(t, q, i) {
      assert q[i] <= q[i + 1] <= q[n];
    }
    assert Slice(t', q, n) == Slice(a, p, n) + extra[n];
  }

  /** The rows after both arrays have got room for the new entries. */
  lemma RowsExtended(d: seq<real>, x: seq<nat>, p: seq<nat>, d': seq<real>, x': seq<nat>, q: seq<nat>,
                     values: seq<seq<real>>, cols: seq<seq<nat>>, rows: seq<seq<Entry>>)
    requires |d| == |x| && |values| == |cols| == |rows|
    requires Placed(d', q, d, p, values, |rows|) && Placed(x', q, x, p, cols, |rows|)
    requires forall i | 0 <= i < |rows| :: rows[i] == Zip(cols[i], values[i]) && |cols[i]| == |values[i]|
    ensures |d'| == |x'|
    ensures forall i | 0 <= i < |rows| :: RowsOf(d', x', q)[i] == RowsOf(d, x, p)[i] + rows[i]
  {
    forall i | 0 <= i < |rows| ensures RowOf(d', x', q, i) == RowOf(d, x, p, i) + rows[i] {
      assert Slice(d', q, i) == Slice(d, p, i) + values[i];
      assert Slice(x', q, i) == Slice(x, p, i) + cols[i];
    }
  }

  ghost function Zip(cols: seq<nat>, values: seq<real>): (r: seq<Entry>)
    requires |cols| == |values|
    ensures |r| == |cols| && forall k | 0 <= k < |r| :: r[k] == Entry(cols[k], values[k])
  {
    seq(|cols|, k requires 0 <= k < |cols| => Entry(cols[k], values[k]))
  }

  lemma FloatRows(data: seq<real>, indices: seq<nat>, p: seq<nat>, col: seq<real>)
    requires data == col && |indices| == |col| && |p| == |col| + 1
    requires (forall k | 0 <= k < |col| :: indices[k] == 0) && forall k | 0 <= k < |p| :: p[k] == k
    ensures Pointers(p, |data|) && RowsOf(data, indices, p) == FromColumn(Numerical(col)).rows
  {
    var rows := FromColumn(Numerical(col)).rows;
    forall i | 0 <= i < |rows| ensures IsRow(data, indices, p, i, rows[i]) {
      assert rows[i] == [Entry(0, col[i])];
    }
    RowsAre(data, indices, p, rows);
  }

  lemma IntRows(data: seq<real>, indices: seq<nat>, p: seq<nat>, codes: seq<int>)
    requires |data| == |indices| == NonNegative(codes, |codes|) && |p| == |codes| + 1
    requires (forall k | 0 <= k < |data| :: data[k] == 1.0)
        && forall k {:trigger p[k]} | 0 <= k < |p| :: p[k] == NonNegative(codes, k)
    requires forall k | 0 <= k < |codes| && codes[k] >= 0 :: p[k] < |indices| && indices[p[k]] == codes[k]
    ensures Pointers(p, |data|)
    ensures forall n :: RowsOf(data, indices, p) == FromColumn(Categorical(codes, n)).rows
  {
    forall i, j | 0 <= i <= j < |p| ensures p[i] <= p[j] {
      NonNegativeMonotone(codes, i, j);
    }
    forall n ensures RowsOf(data, indices, p) == FromColumn(Categorical(codes, n)).rows {
      var rows := FromColumn(Categorical(codes, n)).rows;
      forall i | 0 <= i < |rows| ensures IsRow(data, indices, p, i, rows[i]) {
        assert rows[i] == if codes[i] >= 0 then [Entry(codes[i], 1.0)] else [];
      }
      RowsAre(data, indices, p, rows);
    }
  }

  /** Making room for the entries of a column is adding the column. */
  lemma FloatsAdded(d: seq<real>, x: seq<nat>, p: seq<nat>, d': seq<real>, x': seq<nat>, q: seq<nat>,
      col: seq<real>, n: nat)
    requires |d| == |x| && n > 0
    requires Placed(d', q, d, p, Each(col), |col|) && Placed(x', q, x, p, Each(Same(|col|, n)), |col|)
    ensures |d'| == |x'| && Matrix(RowsOf(d', x', q), n + 1) == Add(Matrix(RowsOf(d, x, p), n), Numerical(col))
  {
    var rows := seq(|col|, i requires 0 <= i < |col| => EntriesOf(Numerical(col), i, n));
    RowsExtended(d, x, p, d', x', q, Each(col), Each(Same(|col|, n)), rows);
  }

  lemma IntsAdded(d: seq<real>, x: seq<nat>, p: seq<nat>, d': seq<real>, x': seq<nat>, q: seq<nat>,
                  codes: seq<int>, nUnique: nat, n: nat)
    requires |d| == |x| && n > 0
    requires Placed(d', q, d, p, NotNull(codes, Same(|codes|, 1.0)), |codes|)
    requires Placed(x', q, x, p, NotNull(codes, Offset(codes, n)), |codes|)
    ensures |d'| == |x'|
    ensures Matrix(RowsOf(d', x', q), n + nUnique) == Add(Matrix(RowsOf(d, x, p), n), Categorical(codes, nUnique))
  {
    var c := Categorical(codes, nUnique);
    var rows := seq(|codes|, i requires 0 <= i < |codes| => EntriesOf(c, i, n));
    RowsExtended(d, x, p, d', x', q, NotNull(codes, Same(|codes|, 1.0)), NotNull(codes, Offset(codes, n)), rows);
  }

  class CSR {
    var data: array<real>
    var indptr: array<nat>
    var indices: array<nat>
    var ncols: nat

    ghost predicate Valid()
      reads this, data, indptr, indices
    {
      && indices != indptr && data.Length == indices.Length
      && indptr.Length >= 1 && Used() <= data.Length && Pointers(indptr[..], Used())
    }

    /** The number of elements of data and indices that belong to a row. */
    ghost function Used(): nat
      reads this, indptr
      requires indptr.Length >= 1
    {
      indptr[indptr.Length - 1]
    }

    /** indptr ends at the number of elements. */
    ghost predicate Tight()
      requires Valid()
      reads this, data, indptr, indices
    {
      Used() == data.Length
    }

    ghost function Contents(): Matrix
      requires Valid()
      reads this, data, indptr, indices
    {
      Matrix(RowsOf(data[..Used()], indices[..Used()], indptr[..]), ncols)
    }

    lemma ContentsAre(d: seq<real>, x: seq<nat>, p: seq<nat>)
      requires indices != indptr && |d| == |x| <= data.Length == indices.Length
      requires Pointers(p, |d|) && indptr[..] == p && data[..|d|] == d && indices[..|x|] == x
      ensures Valid() && Used() == |d| && Contents() == Matrix(RowsOf(d, x, p), ncols)
    {
      assert p[|p| - 1] == indptr[..][indptr.Length - 1];
    }

    /** An empty matrix. */
    constructor ()
      ensures Valid() && Tight() && Contents() == Matrix([], 0) && fresh(data) && fresh(indices) && fresh(indptr)
    {
      data := new real[0];
      indices := new nat[0];
      indptr := new nat[1](_ => 0);
      ncols := 0;
    }

    /** From a discrete or numerical column. */
    constructor FromFloats(col: seq<real>)
      ensures Valid() && Tight() && Contents() == FromColumn(Numerical(col))
      ensures fresh(data) && fresh(indices) && fresh(indptr)
    {
      var d := new real[|col|](_ => 0.0);
      var i := 0;
      while i < d.Length
        invariant 0 <= i <= d.Length
        invariant forall k | 0 <= k < i :: d[k] == col[k]
      {
        d[i] := col[i];
        i := i + 1;
      }
      var p := new nat[|col| + 1](_ => 0);
      assert d[..] == col;
      i := 0;
      while i < p.Length
        invariant 0 <= i <= p.Length
        invariant forall k | 0 <= k < i :: p[k] == k
        invariant d[..] == col
      {
        p[i] := i;
        i := i + 1;
      }
      data, indices, indptr, ncols := d, new nat[|col|](_ => 0), p, 1;
      new;
      FloatRows(data[..], indices[..], indptr[..], col);
      assert data[..Used()] == data[..] && indices[..Used()] == indices[..];
    }

    /** The loop of the constructor from a categorical column; indices_ is a vector that grows. */
    static method PointersOf(codes: seq<int>) returns (p: array<nat>, x: seq<nat>)
      ensures fresh(p) && p.Length == |codes| + 1 && |x| == NonNegative(codes, |codes|)
      ensures forall k {:trigger p[k]} | 0 <= k <= |codes| :: p[k] == NonNegative(codes, k)
      ensures forall k {:trigger codes[k]} | 0 <= k < |codes| && codes[k] >= 0 :: p[k] < |x| && x[p[k]] == codes[k]
    {
      p, x := new nat[|codes| + 1](_ => 0), [];
      var i := 0;
      while i < |codes|
        invariant 0 <= i <= |codes|
        invariant |x| == p[i] && p.Length == |codes| + 1
        invariant forall k {:trigger p[k]} | 0 <= k <= i :: p[k] == NonNegative(codes, k)
        invariant forall k {:trigger codes[k]} | 0 <= k < i && codes[k] >= 0 :: p[k] < |x| && x[p[k]] == codes[k]
      {
        NonNegativeStep(codes, i);
        if codes[i] >= 0 {
          x := x + [codes[i]];
          p[i + 1] := p[i] + 1;
        } else {
          p[i + 1] := p[i];
        }
        i := i + 1;
      }
    }

    /** From a categorical column. */
    constructor FromInts(codes: seq<int>, nUnique: nat)
      ensures Valid() && Tight() && Contents() == FromColumn(Categorical(codes, nUnique))
      ensures fresh(data) && fresh(indices) && fresh(indptr)
    {
      var p, x := PointersOf(codes);
      indices := new nat[|x|](k requires 0 <= k < |x| => x[k]);
      data := new real[|x|](_ => 1.0);
      indptr, ncols := p, nUnique;
      new;
      IntRows(data[..], indices[..], indptr[..], codes);
      assert data[..Used()] == data[..] && indices[..Used()] == indices[..];
    }

    /** One turn of the loops that make room: the old row, and one element behind it if there is one. */
    static method ExtendRow<T>(a: array<T>, lo: nat, hi: nat, t: array<T>, at: nat, add: bool, x: T,
                               ghost s: seq<T>, ghost n: nat, ghost p: seq<nat>, ghost q: seq<nat>,
                               ghost extra: seq<seq<T>>, ghost i: nat)
      requires a != t && |s| <= a.Length && a[..|s|] == s && n <= t.Length && Placed(t[..n], q, s, p, extra, i)
      requires i < |extra| && extra[i] == Maybe(add, x) && lo == p[i] && hi == p[i + 1] && at == q[i]
      modifies t
      ensures Placed(t[..n], q, s, p, extra, i + 1)
    {
      ghost var before := t[..];
      assert RowLength(q, i) == RowLength(p, i) + |extra[i]| && q[i + 1] <= n && hi <= |s|;
      assert p[i] <= p[i + 1] && Slice(s, p, i) == a[lo..hi];
      Copy(a, lo, hi, t, at);
      ghost var copied := t[..];
      if add {
        t[at + (hi - lo)] := x;
      }
      CopiedRow(before, copied, t[..], a[lo..hi], at, add, x, n);
      PlaceRow(before[..n], t[..n], q, s, p, extra, i);
    }

    /**
     The loop of update_data_from_float and update_indices_from_float: an element at the end of every row. The
     rows are in the front part s of the array, and in the front part r afterwards.
     */
    static method ExtendAll<T>(a: array<T>, p: array<nat>, col: seq<T>, zero: T, ghost s: seq<T>, ghost c: seq<T>)
      returns (t: array<T>, ghost r: seq<T>)
      requires |s| <= a.Length && s == a[..|s|] && Pointers(p[..], |s|)
      requires |c| == p.Length - 1 && |c| <= |col| && c == col[..|c|]
      ensures fresh(t) && t.Length == a.Length + |col| && |r| == |s| + |c| && r == t[..|r|]
      ensures Placed(r, FloatPointers(p[..]), s, p[..], Each(c), |c|)
    {
      t := new T[a.Length + |col|](_ => zero);
      ghost var ps, q, extra, m := p[..], FloatPointers(p[..]), Each(c), |s| + |c|;
      NoFloatsPlaced(t[..m], s, ps, c);
      var i := 0;
      while i < p.Length - 1
        invariant 0 <= i <= p.Length - 1 && a[..|s|] == s && p[..] == ps
        invariant Placed(t[..m], q, s, ps, extra, i)
      {
        assert q[i] == ps[i] + i && extra[i] == [col[i]];
        ExtendRow(a, p[i], p[i + 1], t, p[i] + i, true, col[i], s, m, ps, q, extra, i);
        i := i + 1;
      }
      r := t[..m];
    }

    /** The loop of update_data_from_int and update_indices_from_int: an element for every code that is not null. */
    static method ExtendSome<T>(a: array<T>, p: array<nat>, codes: seq<int>, col: seq<T>, zero: T, added: nat,
                                ghost s: seq<T>)
      returns (t: array<T>, ghost r: seq<T>)
      requires |s| <= a.Length && s == a[..|s|] && Pointers(p[..], |s|) && |codes| == |col| == p.Length - 1
      requires added == NonNegative(codes, |codes|)
      ensures fresh(t) && t.Length == a.Length + added && |r| == |s| + added && r == t[..|r|]
      ensures Placed(r, IntPointers(p[..], codes), s, p[..], NotNull(codes, col), |col|)
    {
      t := new T[a.Length + added](_ => zero);
      ghost var ps, q, extra, m := p[..], IntPointers(p[..], codes), NotNull(codes, col), |s| + added;
      NoIntsPlaced(t[..m], s, ps, codes, col);
      var i: nat, numAdded: nat := 0, 0;
      while i < p.Length - 1
        invariant 0 <= i <= p.Length - 1 && numAdded == NonNegative(codes, i) && a[..|s|] == s && p[..] == ps
        invariant Placed(t[..m], q, s, ps, extra, i)
      {
        ExtendRow(a, p[i], p[i + 1], t, p[i] + numAdded, codes[i] >= 0, col[i], s, m, ps, q, extra, i);
        NonNegativeStep(codes, i);
        if codes[i] >= 0 {
          numAdded := numAdded + 1;
        }
        i := i + 1;
      }
      assert numAdded == added;
      r := t[..m];
    }

    method UpdateDataFromFloat(col: seq<real>, ghost d: seq<real>, ghost c: seq<real>)
      returns (t: array<real>, ghost d': seq<real>)
      requires |d| <= data.Length && d == data[..|d|] && Pointers(indptr[..], |d|)
      requires |c| == indptr.Length - 1 && |c| <= |col| && c == col[..|c|]
      ensures fresh(t) && t.Length == data.Length + |col| && |d'| == |d| + |c| && d' == t[..|d'|]
      ensures Placed(d', FloatPointers(indptr[..]), d, indptr[..], Each(c), |c|)
    {
      t, d' := ExtendAll(data, indptr, col, 0.0, d, c);
    }

    method UpdateIndicesFromFloat(size: nat, ghost x: seq<nat>) returns (t: array<nat>, ghost x': seq<nat>)
      requires |x| <= indices.Length && x == indices[..|x|] && Pointers(indptr[..], |x|) && size >= indptr.Length - 1
      ensures var n := indptr.Length - 1;
        && fresh(t) && t.Length == indices.Length + size && |x'| == |x| + n && x' == t[..|x'|]
        && Placed(x', FloatPointers(indptr[..]), x, indptr[..], Each(Same(n, ncols)), n)
    {
      t, x' := ExtendAll(indices, indptr, Same(size, ncols), 0, x, Same(indptr.Length - 1, ncols));
    }

    method UpdateDataFromInt(codes: seq<int>, added: nat, ghost d: seq<real>)
      returns (t: array<real>, ghost d': seq<real>)
      requires |d| <= data.Length && d == data[..|d|] && Pointers(indptr[..], |d|) && |codes| == indptr.Length - 1
      requires added == NonNegative(codes, |codes|)
      ensures fresh(t) && t.Length == data.Length + added && |d'| == |d| + added && d' == t[..|d'|]
      ensures Placed(d', IntPointers(indptr[..], codes), d, indptr[..], NotNull(codes, Same(|codes|, 1.0)), |codes|)
    {
      t, d' := ExtendSome(data, indptr, codes, Same(|codes|, 1.0), 0.0, added, d);
    }

    method UpdateIndicesFromInt(codes: seq<int>, added: nat, ghost x: seq<nat>)
      returns (t: array<nat>, ghost x': seq<nat>)
      requires |x| <= indices.Length && x == indices[..|x|] && Pointers(indptr[..], |x|)
      requires |codes| == indptr.Length - 1 && added == NonNegative(codes, |codes|)
      ensures fresh(t) && t.Length == indices.Length + added && |x'| == |x| + added && x' == t[..|x'|]
      ensures Placed(x', IntPointers(indptr[..], codes), x, indptr[..], NotNull(codes, Offset(codes, ncols)), |codes|)
    {
      t, x' := ExtendSome(indices, indptr, codes, Offset(codes, ncols), 0, added, x);
    }

    /** The loop over indptr_ in add for a numerical column. */
    method UpdateIndptrFromFloat()
      requires indptr.Length >= 1
      modifies indptr
      ensures indptr[..] == FloatPointers(old(indptr[..]))
    {
      var i := 1;
      while i < indptr.Length
        invariant 1 <= i <= indptr.Length
        invariant forall k | 0 <= k < indptr.Length :: indptr[k] == old(indptr[k]) + if k < i then k else 0
      {
        indptr[i] := indptr[i] + i;
        i := i + 1;
      }
    }

    method UpdateIndptrFromInt(codes: seq<int>)
      requires indptr.Length == |codes| + 1
      modifies indptr
      ensures indptr[..] == IntPointers(old(indptr[..]), codes)
    {
      ghost var p := indptr[..];
      var i, numAdded: nat := 0, 0;
      while i < |codes|
        invariant 0 <= i <= |codes| && numAdded == NonNegative(codes, i)
        invariant forall k {:trigger indptr[k]} | 0 <= k <= i :: indptr[k] == IntPointers(p, codes)[k]
        invariant forall k {:trigger indptr[k]} | i < k <= |codes| :: indptr[k] == p[k]
      {
        NonNegativeStep(codes, i);
        if codes[i] >= 0 {
          numAdded := numAdded + 1;
        }
        indptr[i + 1] := indptr[i + 1] + numAdded;
        i := i + 1;
      }
    }

    /** *this = CSRMatrix(...) */
    method Assign(m: CSR)
      requires m.Valid()
      modifies this
      ensures Valid() && Contents() == m.Contents() && (Tight() <==> m.Tight())
      ensures data == m.data && indices == m.indices && indptr == m.indptr
    {
      data, indices, indptr, ncols := m.data, m.indices, m.indptr, m.ncols;
    }

    /**
     add, for a discrete or numerical column. The number of rows is not compared: values behind the last row get
     no place in a row, but leave elements at the ends of the arrays. A column that is too short is found out by
     the assertion of the range type while the first array is made; the exception leaves the matrix as it was.
     */
    method AddFloats(col: seq<real>) returns (ok: bool)
      requires Valid()
      modifies this, indptr
      ensures Valid() && (ok <==> old(ncols) == 0 || |col| >= old(indptr.Length) - 1)
      ensures !ok ==> Contents() == old(Contents()) && (Tight() <==> old(Tight())) && indptr == old(indptr)
      ensures ok ==>
        var c := if old(ncols) == 0 then col else col[..old(indptr.Length) - 1];
        Contents() == Add(old(Contents()), Numerical(c))
      ensures ok ==> (Tight() <==> old(ncols) == 0 || (old(Tight()) && |col| == old(indptr.Length) - 1))
      ensures ok ==> fresh(data) && fresh(indices) && (indptr == old(indptr) || fresh(indptr))
    {
      if ncols == 0 {
        var m := new CSR.FromFloats(col);
        Assign(m);
        return true;
      }
      if |col| < indptr.Length - 1 {
        return false;
      }
      AppendFloats(col);
      ok := true;
    }

    method AppendFloats(col: seq<real>)
      requires Valid() && ncols > 0 && |col| >= indptr.Length - 1
      modifies this, indptr
      ensures fresh(data) && fresh(indices) && indptr == old(indptr)
      ensures Valid() && Contents() == Add(old(Contents()), Numerical(col[..indptr.Length - 1]))
      ensures data.Length - Used() == old(data.Length - Used()) + (|col| - (indptr.Length - 1))
    {
      ghost var c := col[..indptr.Length - 1];
      ghost var d, x, p := data[..Used()], indices[..Used()], indptr[..];
      ghost var d', x' := MakeRoomForFloats(col, d, x, p, c);
      FloatsAdded(d, x, p, d', x', FloatPointers(p), c, ncols);
      UpdateIndptrFromFloat();
      ncols := ncols + 1;
      ContentsAre(d', x', FloatPointers(p));
    }

    /** The assignments to data_ and indices_. */
    method MakeRoomForFloats(col: seq<real>, ghost d: seq<real>, ghost x: seq<nat>, ghost p: seq<nat>,
                             ghost c: seq<real>)
      returns (ghost d': seq<real>, ghost x': seq<nat>)
      requires indices != indptr && |d| == |x| <= data.Length == indices.Length && p == indptr[..]
      requires d == data[..|d|] && x == indices[..|x|] && Pointers(p, |d|)
      requires |c| == |p| - 1 && |c| <= |col| && c == col[..|c|]
      modifies this`data, this`indices
      ensures fresh(data) && fresh(indices) && data.Length == indices.Length == old(data.Length) + |col|
      ensures |d'| == |x'| == |d| + |c| && d' == data[..|d'|] && x' == indices[..|x'|]
      ensures Placed(d', FloatPointers(p), d, p, Each(c), |c|)
      ensures Placed(x', FloatPointers(p), x, p, Each(Same(|c|, ncols)), |c|)
    {
      data, d' := UpdateDataFromFloat(col, d, c);
      indices, x' := UpdateIndicesFromFloat(|col|, x);
    }

    method MakeRoomForInts(codes: seq<int>, added: nat, ghost d: seq<real>, ghost x: seq<nat>, ghost p: seq<nat>)
      returns (ghost d': seq<real>, ghost x': seq<nat>)
      requires indices != indptr && |d| == |x| <= data.Length == indices.Length && p == indptr[..]
      requires d == data[..|d|] && x == indices[..|x|] && Pointers(p, |d|)
      requires |codes| == |p| - 1 && added == NonNegative(codes, |codes|)
      modifies this`data, this`indices
      ensures fresh(data) && fresh(indices) && data.Length == indices.Length == old(data.Length) + added
      ensures |d'| == |x'| == |d| + added && d' == data[..|d'|] && x' == indices[..|x'|]
      ensures Placed(d', IntPointers(p, codes), d, p, NotNull(codes, Same(|codes|, 1.0)), |codes|)
      ensures Placed(x', IntPointers(p, codes), x, p, NotNull(codes, Offset(codes, ncols)), |codes|)
    {
      data, d' := UpdateDataFromInt(codes, added, d);
      indices, x' := UpdateIndicesFromInt(codes, added, x);
    }

    /** add, for a categorical column; the number of rows is asserted. */
    method AddInts(codes: seq<int>, nUnique: nat) returns (ok: bool)
      requires Valid()
      modifies this, indptr
      ensures Valid() && (ok <==> old(ncols) == 0 || |codes| == old(indptr.Length) - 1)
      ensures !ok ==> Contents() == old(Contents()) && (Tight() <==> old(Tight())) && indptr == old(indptr)
      ensures ok ==> Contents() == Add(old(Contents()), Categorical(codes, nUnique))
      ensures ok ==> (Tight() <==> old(ncols) == 0 || old(Tight()))
      ensures ok ==> fresh(data) && fresh(indices) && (indptr == old(indptr) || fresh(indptr))
    {
      if ncols == 0 {
        var m := new CSR.FromInts(codes, nUnique);
        Assign(m);
        return true;
      }
      if |codes| != indptr.Length - 1 {
        return false;
      }
      AppendInts(codes, nUnique);
      ok := true;
    }

    method AppendInts(codes: seq<int>, nUnique: nat)
      requires Valid() && ncols > 0 && |codes| == indptr.Length - 1
      modifies this, indptr
      ensures fresh(data) && fresh(indices) && indptr == old(indptr)
      ensures Valid() && Contents() == Add(old(Contents()), Categorical(codes, nUnique))
      ensures data.Length - Used() == old(data.Length - Used())
    {
      var added := CountNonNegative(codes);
      ghost var d, x, p := data[..Used()], indices[..Used()], indptr[..];
      ghost var d', x' := MakeRoomForInts(codes, added, d, x, p);
      IntsAdded(d, x, p, d', x', IntPointers(p, codes), codes, nUnique, ncols);
      UpdateIndptrFromInt(codes);
      ncols := ncols + nUnique;
      ContentsAre(d', x', IntPointers(p, codes));
    }
  }

  /** std::count_if */
  method CountNonNegative(codes: seq<int>) returns (n: nat)
    ensures n == NonNegative(codes, |codes|)
  {
    n := 0;
    var i := 0;
    while i < |codes|
      invariant 0 <= i <= |codes| && n == NonNegative(codes, i)
    {
      if codes[i] >= 0 {
        n := n + 1;
      }
      i := i + 1;
    }
  }

  // ------------------------------------------------------------------------
  // The dense reading.

  /** The value at column j: the sum of the entries there. */
  ghost function At(row: seq<Entry>, j: int): real {
    if row == [] then 0.0 else (if row[0].col == j then row[0].value else 0.0) + At(row[1..], j)
  }

  ghost function Dense(row: seq<Entry>, ncols: nat): (r: seq<real>)
    ensures |r| == ncols && forall j | 0 <= j < ncols :: r[j] == At(row, j)
  {
    seq(ncols, j => At(row, j))
  }

  /** A numerical value, or a one-hot block, which is empty for null. */
  ghost function Block(c: Column, i: nat): (r: seq<real>)
    requires i < Length(c)
    ensures |r| == Width(c)
  {
    if c.Numerical? then [c.values[i]] else seq(c.nUnique, j => if c.codes[i] == j then 1.0 else 0.0)
  }

  /** Codes are null or below n_unique. */
  ghost predicate Proper(c: Column) {
    c.Categorical? ==> forall i | 0 <= i < |c.codes| :: c.codes[i] < c.nUnique
  }

  /** Column numbers increase within each row and are below ncols. */
  ghost predicate Ordered(m: Matrix) {
    forall i | 0 <= i < |m.rows| :: RowOrdered(m.rows[i], m.ncols)
  }

  ghost predicate RowOrdered(row: seq<Entry>, ncols: nat) {
    && (forall k | 0 <= k < |row| :: row[k].col < ncols)
    && forall j, k | 0 <= j < k < |row| :: row[j].col < row[k].col
  }

  lemma {:induction false} AtConcat(a: seq<Entry>, b: seq<Entry>, j: int)
    ensures At(a + b, j) == At(a, j) + At(b, j)
  {
    if a == [] {
      assert a + b == b;
    } else {
      AtConcat(a[1..], b, j);
      assert (a + b)[1..] == a[1..] + b;
    }
  }

  lemma {:induction false} AtOutside(row: seq<Entry>, j: int)
    requires forall k | 0 <= k < |row| :: row[k].col != j
    ensures At(row, j) == 0.0
  {
    if row != [] { AtOutside(row[1..], j); }
  }

  /** A row with the entries of a column behind it reads as the row with the block behind it. */
  lemma DenseAppends(row: seq<Entry>, n: nat, c: Column, i: nat)
    requires RowOrdered(row, n) && Proper(c) && i < Length(c)
    ensures RowOrdered(row + EntriesOf(c, i, n), n + Width(c))
    ensures Dense(row + EntriesOf(c, i, n), n + Width(c)) == Dense(row, n) + Block(c, i)
  {
    var extra := EntriesOf(c, i, n);
    forall j | 0 <= j < n + Width(c)
      ensures At(row + extra, j) == if j < n then At(row, j) else Block(c, i)[j - n]
    {
      AtConcat(row, extra, j);
      if j < n {
        AtOutside(extra, j);
      } else {
        AtOutside(row, j);
        if |extra| == 1 { assert extra[1..] == []; }
      }
    }
  }

  /** A whole run of adds. */
  ghost predicate Fits(columns: seq<Column>, nrows: nat) {
    forall k | 0 <= k < |columns| :: Length(columns[k]) == nrows && Proper(columns[k])
  }

  ghost function AddAll(columns: seq<Column>, nrows: nat): (m: Matrix)
    requires Fits(columns, nrows)
    ensures columns != [] ==> |m.rows| == nrows
  {
    if columns == [] then Matrix([], 0) else Add(AddAll(columns[..|columns| - 1], nrows), columns[|columns| - 1])
  }

  /** The horizontal concatenation of the blocks of row i. */
  ghost function Concatenated(columns: seq<Column>, nrows: nat, i: nat): seq<real>
    requires Fits(columns, nrows) && i < nrows
  {
    if columns == [] then []
    else Concatenated(columns[..|columns| - 1], nrows, i) + Block(columns[|columns| - 1], i)
  }

  ghost function TotalWidth(columns: seq<Column>): nat {
    if columns == [] then 0 else TotalWidth(columns[..|columns| - 1]) + Width(columns[|columns| - 1])
  }

  /** Any mix of columns, added to an empty matrix, reads as their concatenation, with ordered rows. */
  lemma {:induction false} AddAllIsConcatenation(columns: seq<Column>, nrows: nat)
    requires Fits(columns, nrows)
    ensures var m := AddAll(columns, nrows);
      && Ordered(m) && m.ncols == TotalWidth(columns)
      && (columns != [] ==> forall i | 0 <= i < nrows :: Dense(m.rows[i], m.ncols) == Concatenated(columns, nrows, i))
    decreases |columns|
  {
    if columns != [] {
      var before, c := columns[..|columns| - 1], columns[|columns| - 1];
      AddAllIsConcatenation(before, nrows);
      var m, m' := AddAll(before, nrows), AddAll(columns, nrows);
      forall i | 0 <= i < nrows
        ensures RowOrdered(m'.rows[i], m'.ncols) && Dense(m'.rows[i], m'.ncols) == Concatenated(columns, nrows, i)
      {
        assert before != [] ==> Dense(m.rows[i], m.ncols) == Concatenated(before, nrows, i);
        assert m.ncols == 0 ==> Concatenated(before, nrows, i) == [];
        AddNextRow(m, c, i, Concatenated(before, nrows, i));
      }
    }
  }

  /** One row of one add; a matrix without columns may be one without rows. */
  lemma AddNextRow(m: Matrix, c: Column, i: nat, dense: seq<real>)
    requires Proper(c) && Ordered(m) && i < Length(c) && (m.ncols > 0 ==> Length(c) == |m.rows|)
    requires if m.ncols == 0 then dense == [] else Dense(m.rows[i], m.ncols) == dense
    ensures var m' := Add(m, c);
      RowOrdered(m'.rows[i], m'.ncols) && Dense(m'.rows[i], m'.ncols) == dense + Block(c, i)
  {
    DenseAppends(if m.ncols == 0 then [] else m.rows[i], m.ncols, c, i);
    assert [] + EntriesOf(c, i, 0) == EntriesOf(c, i, 0);
    assert Dense([], 0) == [];
  }

  /** The number of the columns that are numerical or not null in row i. */
  ghost function Present(columns: seq<Column>, nrows: nat, i: nat): nat
    requires Fits(columns, nrows) && i < nrows
  {
    if columns == [] then 0
    else
      var c := columns[|columns| - 1];
      Present(columns[..|columns| - 1], nrows, i) + if c.Numerical? || c.codes[i] >= 0 then 1 else 0
  }

  lemma EntriesInColumns(row: seq<Entry>, ncols: nat)
    requires RowOrdered(row, ncols) && row != []
    ensures ncols > 0
  {
    assert row[0].col < ncols;
  }

  /** A row has one entry for each of these columns and none for a null, so nothing is stored in vain. */
  lemma {:induction false} StoredEntries(columns: seq<Column>, nrows: nat, i: nat)
    requires Fits(columns, nrows) && i < nrows && columns != []
    ensures |AddAll(columns, nrows).rows[i]| == Present(columns, nrows, i)
    decreases |columns|
  {
    var before, c := columns[..|columns| - 1], columns[|columns| - 1];
    if before != [] {
      StoredEntries(before, nrows, i);
      AddAllIsConcatenation(before, nrows);
      var row := AddAll(before, nrows).rows[i];
      if row != [] { EntriesInColumns(row, AddAll(before, nrows).ncols); }
    }
  }

  lemma ImproperLeaves(m: Matrix, c: Column, i: nat)
    requires c.Categorical? && i < |c.codes| && c.codes[i] >= c.nUnique && (m.ncols > 0 ==> |c.codes| == |m.rows|)
    ensures !Ordered(Add(m, c))
  {
    var row := Add(m, c).rows[i];
    assert row[|row| - 1].col >= Add(m, c).ncols;
    assert !RowOrdered(row, Add(m, c).ncols);
  }

  /** The order is kept exactly by the columns whose codes are below n_unique, which nothing checks. */
  lemma OrderedExactly(m: Matrix, c: Column)
    requires Ordered(m) && (m.ncols > 0 ==> Length(c) == |m.rows|)
    ensures Ordered(Add(m, c)) <==> Proper(c)
  {
    if Proper(c) {
      var m' := Add(m, c);
      forall i | 0 <= i < |m'.rows| ensures RowOrdered(m'.rows[i], m'.ncols) {
        DenseAppends(if m.ncols == 0 then [] else m.rows[i], m.ncols, c, i);
        assert [] + EntriesOf(c, i, 0) == EntriesOf(c, i, 0);
      }
    } else {
      var i :| 0 <= i < |c.codes| && c.codes[i] >= c.nUnique;
      ImproperLeaves(m, c, i);
    }
  }

  /** An empty matrix and a series of adds. */
  method Build(columns: seq<Column>, ghost nrows: nat) returns (m: CSR)
    requires Fits(columns, nrows)
    ensures m.Valid() && m.Tight() && m.Contents() == AddAll(columns, nrows)
    ensures fresh(m) && fresh(m.indptr)
    decreases |columns|
  {
    if columns == [] {
      m := new CSR();
      return;
    }
    var k := |columns| - 1;
    m := Build(columns[..k], nrows);
    AddAllIsConcatenation(columns[..k], nrows);
    var ok;
    match columns[k] {
      case Numerical(values) =>
        assert values[..nrows] == values;
        ok := m.AddFloats(values);
      case Categorical(codes, nUnique) =>
        ok := m.AddInts(codes, nUnique);
    }
    assert ok;
  }

  /** A column that is too long by one value: one element of data and of indices belongs to no row. */
  method AddTooLong() returns (m: CSR)
    ensures m.Valid() && !m.Tight() && m.ncols == 2 && m.indptr.Length == 2
  {
    m := new CSR.FromFloats([1.0]);
    var _ := m.AddFloats([2.0, 3.0]);
  }
}
