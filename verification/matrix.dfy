/**
 * The structural part of the dense matrix `Mat`: a row-major block of
 * `rows * cols` cells addressed as `c + r * cols`, its constructors, copy,
 * element-wise map, product, transpose, row swap, arg-max/arg-min row search
 * and equality.
 *
 * Every operation works on a value: an operation that in the C++ `Mat` copies
 * the receiver first (`map`, `transpose`) returns a new matrix here and the
 * argument is untouched by construction. Freshly allocated storage holds
 * unspecified values; it is modelled by a `junk` argument of the right length,
 * and each constructor's contract shows that every cell gets overwritten.
 */
module Matrix {

  /** A matrix of reals stored row-major in `values`. */
  datatype Mat = Mat(rows: int, cols: int, values: seq<real>)

  /** Non-negative dimensions and exactly one stored value per cell. */
  predicate Valid(m: Mat) {
    m.rows >= 0 && m.cols >= 0 && |m.values| == m.rows * m.cols
  }

  predicate InBounds(m: Mat, r: int, c: int) {
    0 <= r < m.rows && 0 <= c < m.cols
  }

  /** Cell (r, c) lies before cell (i, j) in row-major order. */
  predicate Before(r: int, c: int, i: int, j: int) {
    r < i || (r == i && c < j)
  }

  // ---------------------------------------------------------------------------
  // Row-major addressing

  lemma IndexInRange(rows: int, cols: int, r: int, c: int)
    requires 0 <= r < rows && 0 <= c < cols
    ensures 0 <= c + r * cols < rows * cols
  {
    MulAtLeast(rows - r, cols);
    MulNonNegative(r, cols);
    assert (rows - r) * cols == rows * cols - r * cols;
  }

  lemma MulNonNegative(a: int, b: int)
    requires a >= 0 && b >= 0
    ensures a * b >= 0
  {
  }

  lemma MulAtLeast(d: int, cols: int)
    requires d >= 1 && cols >= 0
    ensures d * cols >= cols
  {
    MulNonNegative(d - 1, cols);
    assert d * cols - cols == (d - 1) * cols;
  }

  /** Distinct cells have distinct flat indices. */
  lemma IndexInjective(cols: int, r1: int, c1: int, r2: int, c2: int)
    requires 0 <= c1 < cols && 0 <= c2 < cols
    requires c1 + r1 * cols == c2 + r2 * cols
    ensures r1 == r2 && c1 == c2
  {
    var d := r1 - r2;
    assert d * cols == r1 * cols - r2 * cols;
    if d >= 1 {
      MulAtLeast(d, cols);
    } else if d <= -1 {
      MulAtLeast(-d, cols);
    }
  }

  /** Every flat index below `rows * cols` is the address of one cell. */
  lemma IndexSplit(rows: int, cols: int, k: int)
    requires 0 <= k < rows * cols && cols > 0
    ensures 0 <= k / cols < rows && 0 <= k % cols < cols
    ensures k == k % cols + (k / cols) * cols
  {
    var q := k / cols;
    assert k == k % cols + q * cols;
    if q >= rows {
      MulAtLeast(q - rows + 1, cols);
    }
  }

  lemma CellOfIndex(cols: int, r: int, c: int)
    requires 0 <= c < cols
    ensures (c + r * cols) / cols == r && (c + r * cols) % cols == c
  {
    var k := c + r * cols;
    IndexInjective(cols, k / cols, k % cols, r, c);
  }

  // ---------------------------------------------------------------------------
  // get / set

  /** The flat accessor `get(idx)`. */
  function GetAt(m: Mat, idx: int): real
    requires 0 <= idx < |m.values|
  {
    m.values[idx]
  }

  /** The flat mutator `set(idx, val)`: returns the new matrix and `val`. */
  function SetAt(m: Mat, idx: int, v: real): (res: (Mat, real))
    requires 0 <= idx < |m.values|
    ensures res.1 == v
    ensures res.0.rows == m.rows && res.0.cols == m.cols && |res.0.values| == |m.values|
    ensures GetAt(res.0, idx) == v
    ensures forall k :: 0 <= k < |m.values| && k != idx ==> res.0.values[k] == m.values[k]
  {
    (m.(values := m.values[idx := v]), v)
  }

  /** The two-index accessor `get(r, c)`, reading flat cell `c + r * cols`. */
  function Get(m: Mat, r: int, c: int): (v: real)
    requires Valid(m) && InBounds(m, r, c)
    ensures v in m.values
  {
    IndexInRange(m.rows, m.cols, r, c);
    GetAt(m, c + r * m.cols)
  }

  /** The two-index mutator `set(r, c, val)`: writes one cell and returns `val`. */
  function Set(m: Mat, r: int, c: int, v: real): (res: (Mat, real))
    requires Valid(m) && InBounds(m, r, c)
    ensures res.1 == v
    ensures Valid(res.0) && res.0.rows == m.rows && res.0.cols == m.cols
    ensures Get(res.0, r, c) == v
    ensures forall i, j :: InBounds(m, i, j) && (i, j) != (r, c) ==> Get(res.0, i, j) == Get(m, i, j)
  {
    IndexInRange(m.rows, m.cols, r, c);
    var res := SetAt(m, c + r * m.cols, v);
    assert forall i, j :: InBounds(m, i, j) && (i, j) != (r, c) ==> Get(res.0, i, j) == Get(m, i, j) by {
      forall i, j | InBounds(m, i, j) && (i, j) != (r, c)
        ensures Get(res.0, i, j) == Get(m, i, j)
      {
        IndexInRange(m.rows, m.cols, i, j);
        if c + r * m.cols == j + i * m.cols {
          IndexInjective(m.cols, r, c, i, j);
        }
      }
    }
    res
  }

  /** `get(r, c)` is `get(c + r * cols)`. */
  lemma GetAddressesFlatCell(m: Mat, r: int, c: int)
    requires Valid(m) && InBounds(m, r, c)
    ensures 0 <= c + r * m.cols < |m.values|
    ensures Get(m, r, c) == m.values[c + r * m.cols]
  {
    IndexInRange(m.rows, m.cols, r, c);
  }

  /** `set(r, c, v)` is `set(c + r * cols, v)`. */
  lemma SetAddressesFlatCell(m: Mat, r: int, c: int, v: real)
    requires Valid(m) && InBounds(m, r, c)
    ensures 0 <= c + r * m.cols < |m.values|
    ensures Set(m, r, c, v) == SetAt(m, c + r * m.cols, v)
  {
    IndexInRange(m.rows, m.cols, r, c);
  }

  /** Two matrices of the same shape that agree on every cell are the same matrix. */
  lemma Extensional(a: Mat, b: Mat)
    requires Valid(a) && Valid(b) && a.rows == b.rows && a.cols == b.cols
    requires forall r, c :: InBounds(a, r, c) ==> Get(a, r, c) == Get(b, r, c)
    ensures a == b
  {
    forall k | 0 <= k < |a.values|
      ensures a.values[k] == b.values[k]
    {
      IndexSplit(a.rows, a.cols, k);
      assert Get(a, k / a.cols, k % a.cols) == Get(b, k / a.cols, k % a.cols);
    }
  }

  // ---------------------------------------------------------------------------
  // Reference matrices

  /** The `rows` x `cols` matrix whose cell (r, c) is `f(r, c)`. */
  function Build(rows: nat, cols: nat, f: (int, int) --> real): (m: Mat)
    requires forall r, c :: 0 <= r < rows && 0 <= c < cols ==> f.requires(r, c)
    ensures Valid(m) && m.rows == rows && m.cols == cols
    ensures forall r, c :: InBounds(m, r, c) ==> Get(m, r, c) == f(r, c)
  {
    var vals := seq(rows * cols, k requires 0 <= k < rows * cols =>
      IndexSplit(rows, cols, k); f(k / cols, k % cols));
    var m := Mat(rows, cols, vals);
    assert forall r, c :: InBounds(m, r, c) ==> Get(m, r, c) == f(r, c) by {
      forall r, c | InBounds(m, r, c)
        ensures Get(m, r, c) == f(r, c)
      {
        IndexInRange(rows, cols, r, c);
        CellOfIndex(cols, r, c);
      }
    }
    m
  }

  /** What `eye(n)` produces. */
  function Identity(n: nat): (m: Mat)
    ensures Valid(m) && m.rows == n && m.cols == n
    ensures forall i, j :: InBounds(m, i, j) ==> Get(m, i, j) == if i == j then 1.0 else 0.0
  {
    Build(n, n, (i, j) => if i == j then 1.0 else 0.0)
  }

  /** What `zeros(rows, cols)` produces. */
  function Zero(rows: nat, cols: nat): (m: Mat)
    ensures Valid(m) && m.rows == rows && m.cols == cols
    ensures forall i, j :: InBounds(m, i, j) ==> Get(m, i, j) == 0.0
  {
    Build(rows, cols, (i, j) => 0.0)
  }

  /** The sum `a(i, 0) * b(0, j) + ... + a(i, n - 1) * b(n - 1, j)`, accumulated in that order. */
  function RowColSum(a: Mat, b: Mat, i: int, j: int, n: nat): real
    requires Valid(a) && Valid(b) && 0 <= i < a.rows && 0 <= j < b.cols
    requires n <= a.cols && n <= b.rows
  {
    if n == 0 then 0.0 else RowColSum(a, b, i, j, n - 1) + Get(a, i, n - 1) * Get(b, n - 1, j)
  }

  /**
   * What `a.mul(b)` produces: `a.rows` x `b.cols`, summing over the `a.cols`
   * columns of `a`. The C++ `mul` reads `b(k, j)` for every `k < a.cols`, so it
   * needs `a.cols <= b.rows` and never looks at the rest of `b`.
   */
  function Product(a: Mat, b: Mat): (m: Mat)
    requires Valid(a) && Valid(b) && a.cols <= b.rows
    ensures Valid(m) && m.rows == a.rows && m.cols == b.cols
    ensures forall i, j :: InBounds(m, i, j) ==> Get(m, i, j) == RowColSum(a, b, i, j, a.cols)
  {
    Build(a.rows, b.cols, (i, j) requires 0 <= i < a.rows && 0 <= j < b.cols =>
      RowColSum(a, b, i, j, a.cols))
  }

  /** The transpose: cell (i, j) holds cell (j, i) of `m`. */
  function Transposed(m: Mat): (t: Mat)
    requires Valid(m)
    ensures Valid(t) && t.rows == m.cols && t.cols == m.rows
    ensures forall i, j :: InBounds(t, i, j) ==> Get(t, i, j) == Get(m, j, i)
  {
    Build(m.cols, m.rows, (i, j) requires 0 <= i < m.cols && 0 <= j < m.rows => Get(m, j, i))
  }

  /** The row that ends up at row `r` when rows `a` and `b` are exchanged. */
  function SwappedRow(r: int, a: int, b: int): (s: int)
    ensures s == r || s == a || s == b
    ensures r != a && r != b ==> s == r
  {
    if r == a then b else if r == b then a else r
  }

  /** `m` with rows `a` and `b` exchanged. */
  function RowsSwapped(m: Mat, a: int, b: int): (s: Mat)
    requires Valid(m) && 0 <= a < m.rows && 0 <= b < m.rows
    ensures Valid(s) && s.rows == m.rows && s.cols == m.cols
    ensures forall i, j :: InBounds(s, i, j) ==> Get(s, i, j) == Get(m, SwappedRow(i, a, b), j)
  {
    Build(m.rows, m.cols, (i, j) requires 0 <= i < m.rows && 0 <= j < m.cols =>
      Get(m, SwappedRow(i, a, b), j))
  }

  /** `m` with `f` applied to every cell. */
  function Mapped(m: Mat, f: real -> real): (res: Mat)
    requires Valid(m)
    ensures Valid(res) && res.rows == m.rows && res.cols == m.cols
    ensures forall i, j :: InBounds(m, i, j) ==> Get(res, i, j) == f(Get(m, i, j))
  {
    Build(m.rows, m.cols, (i, j) requires 0 <= i < m.rows && 0 <= j < m.cols => f(Get(m, i, j)))
  }

  // ---------------------------------------------------------------------------
  // Algebraic facts about the reference matrices

  lemma {:induction false} TransposeInvolution(m: Mat)
    requires Valid(m)
    ensures Transposed(Transposed(m)) == m
  {
    Extensional(Transposed(Transposed(m)), m);
  }

  lemma {:induction false} SwapInvolution(m: Mat, a: int, b: int)
    requires Valid(m) && 0 <= a < m.rows && 0 <= b < m.rows
    ensures RowsSwapped(RowsSwapped(m, a, b), a, b) == m
  {
    var s := RowsSwapped(m, a, b);
    forall i, j | InBounds(m, i, j)
      ensures Get(RowsSwapped(s, a, b), i, j) == Get(m, i, j)
    {
      assert Get(RowsSwapped(s, a, b), i, j) == Get(s, SwappedRow(i, a, b), j);
    }
    Extensional(RowsSwapped(s, a, b), m);
  }

  /** Only the first `k` terms of a row of the identity can be non-zero: the sum picks out `b(i, j)`. */
  lemma {:induction false} IdentityRowSum(n: nat, b: Mat, i: int, j: int, k: nat)
    requires Valid(b) && b.rows == n && 0 <= i < n && 0 <= j < b.cols && k <= n
    ensures RowColSum(Identity(n), b, i, j, k) == if i < k then Get(b, i, j) else 0.0
  {
    if k > 0 {
      IdentityRowSum(n, b, i, j, k - 1);
    }
  }

  /** `eye(n).mul(b)` is `b`. */
  lemma IdentityLeftUnit(b: Mat)
    requires Valid(b)
    ensures Product(Identity(b.rows), b) == b
  {
    var p := Product(Identity(b.rows), b);
    forall i, j | InBounds(b, i, j)
      ensures Get(p, i, j) == Get(b, i, j)
    {
      IdentityRowSum(b.rows, b, i, j, b.rows);
    }
    Extensional(p, b);
  }

  // ---------------------------------------------------------------------------
  // Loop invariants of the cell-by-cell loops

  /** `m` agrees with `ref` on every cell before (i, j) in row-major order. */
  ghost predicate MatchesUpTo(m: Mat, ref: Mat, i: int, j: int) {
    && Valid(m) && Valid(ref) && m.rows == ref.rows && m.cols == ref.cols
    && forall r, c :: InBounds(m, r, c) && Before(r, c, i, j) ==> Get(m, r, c) == Get(ref, r, c)
  }

  lemma MatchesStep(m: Mat, ref: Mat, i: int, j: int, v: real)
    requires MatchesUpTo(m, ref, i, j) && InBounds(m, i, j) && v == Get(ref, i, j)
    ensures MatchesUpTo(Set(m, i, j, v).0, ref, i, j + 1)
  {
  }

  lemma MatchesRowDone(m: Mat, ref: Mat, i: int)
    requires MatchesUpTo(m, ref, i, m.cols)
    ensures MatchesUpTo(m, ref, i + 1, 0)
  {
  }

  lemma MatchesAll(m: Mat, ref: Mat)
    requires MatchesUpTo(m, ref, m.rows, 0)
    ensures m == ref
  {
    Extensional(m, ref);
  }

  /**
   * Progress of `_transpose` at cell (i, j): the cells whose mirror pair has
   * been visited below the diagonal hold the mirrored value, the rest the
   * value they held in `m`.
   */
  ghost predicate TransposedUpTo(m: Mat, t: Mat, i: int, j: int) {
    && Valid(m) && Valid(t) && m.rows == m.cols && t.rows == m.rows && t.cols == m.cols
    && forall r, c :: InBounds(m, r, c) ==>
         Get(t, r, c) == if Exchanged(r, c, i, j) then Get(m, c, r) else Get(m, r, c)
  }

  /** The unordered pair {r, c} of an off-diagonal cell has been handled once the loop reaches (i, j). */
  predicate Exchanged(r: int, c: int, i: int, j: int) {
    (r > c && Before(r, c, i, j)) || (c > r && Before(c, r, i, j))
  }

  lemma TransposeSkip(m: Mat, t: Mat, i: int, j: int)
    requires TransposedUpTo(m, t, i, j) && i <= j
    ensures TransposedUpTo(m, t, i, j + 1)
  {
  }

  lemma TransposeSwap(m: Mat, t: Mat, i: int, j: int)
    requires TransposedUpTo(m, t, i, j) && 0 <= j < i < m.rows
    ensures var t1 := Set(t, i, j, Get(t, j, i)).0;
      TransposedUpTo(m, Set(t1, j, i, Get(t, i, j)).0, i, j + 1)
  {
  }

  lemma TransposeRowDone(m: Mat, t: Mat, i: int)
    requires TransposedUpTo(m, t, i, m.cols)
    ensures TransposedUpTo(m, t, i + 1, 0)
  {
  }

  lemma TransposeAll(m: Mat, t: Mat)
    requires TransposedUpTo(m, t, m.rows, 0)
    ensures t == Transposed(m)
  {
    Extensional(t, Transposed(m));
  }

  /** Progress of `_swapRows`: columns before `i` are exchanged, the rest untouched. */
  ghost predicate SwappedUpTo(m: Mat, s: Mat, a: int, b: int, i: int) {
    && Valid(m) && Valid(s) && s.rows == m.rows && s.cols == m.cols
    && 0 <= a < m.rows && 0 <= b < m.rows
    && forall r, c :: InBounds(m, r, c) ==>
         Get(s, r, c) == if c < i then Get(m, SwappedRow(r, a, b), c) else Get(m, r, c)
  }

  lemma SwapStep(m: Mat, s: Mat, a: int, b: int, i: int)
    requires SwappedUpTo(m, s, a, b, i) && 0 <= i < m.cols
    ensures var s1 := Set(s, a, i, Get(s, b, i)).0;
      SwappedUpTo(m, Set(s1, b, i, Get(s, a, i)).0, a, b, i + 1)
  {
  }

  lemma SwapAll(m: Mat, s: Mat, a: int, b: int)
    requires SwappedUpTo(m, s, a, b, m.cols)
    ensures s == RowsSwapped(m, a, b)
  {
    Extensional(s, RowsSwapped(m, a, b));
  }

  // ---------------------------------------------------------------------------
  // The operations

  /** Allocation followed by `set(i, j, f(i, j))` for every cell in row-major order. */
  method Fill(rows: nat, cols: nat, f: (int, int) -> real, junk: seq<real>) returns (m: Mat)
    requires |junk| == rows * cols
    ensures m == Build(rows, cols, f)
  {
    ghost var ref := Build(rows, cols, f);
    m := Mat(rows, cols, junk);
    var i := 0;
    while i < rows
      invariant 0 <= i <= rows
      invariant MatchesUpTo(m, ref, i, 0)
    {
      var j := 0;
      while j < cols
        invariant 0 <= j <= cols
        invariant MatchesUpTo(m, ref, i, j)
      {
        MatchesStep(m, ref, i, j, f(i, j));
        var (next, _) := Set(m, i, j, f(i, j));
        m := next;
        j := j + 1;
      }
      MatchesRowDone(m, ref, i);
      i := i + 1;
    }
    MatchesAll(m, ref);
  }

  /** `eye(n)`: the identity matrix; every allocated cell is overwritten. */
  method Eye(n: nat, junk: seq<real>) returns (m: Mat)
    requires |junk| == n * n
    ensures m == Identity(n)
  {
    m := Fill(n, n, (i, j) => if i == j then 1.0 else 0.0, junk);
  }

  /** `zeros(rows, cols)`. */
  method Zeros(rows: nat, cols: nat, junk: seq<real>) returns (m: Mat)
    requires |junk| == rows * cols
    ensures m == Zero(rows, cols)
  {
    m := Fill(rows, cols, (i, j) => 0.0, junk);
  }

  /** The copy constructor: same dimensions, then `set(i, from.get(i))` for every flat index. */
  method Copy(from: Mat, junk: seq<real>) returns (m: Mat)
    requires Valid(from) && |junk| == from.rows * from.cols
    ensures m == from
  {
    m := Mat(from.rows, from.cols, junk);
    var i := 0;
    while i < from.rows * from.cols
      invariant 0 <= i <= from.rows * from.cols
      invariant m.rows == from.rows && m.cols == from.cols && |m.values| == |from.values|
      invariant m.values[..i] == from.values[..i]
    {
      var (next, _) := SetAt(m, i, GetAt(from, i));
      assert next.values[..i + 1] == m.values[..i] + [from.values[i]];
      m := next;
      i := i + 1;
    }
    assert m.values == m.values[..i];
    assert from.values == from.values[..i];
  }

  /** `_map`: `set(i, mapper(get(i)))` for every flat index. */
  method MapInPlace(m: Mat, f: real -> real) returns (res: Mat)
    requires Valid(m)
    ensures res == Mapped(m, f)
  {
    res := m;
    var i := 0;
    while i < m.rows * m.cols
      invariant 0 <= i <= m.rows * m.cols
      invariant res.rows == m.rows && res.cols == m.cols && |res.values| == |m.values|
      invariant forall k :: 0 <= k < i ==> res.values[k] == f(m.values[k])
      invariant forall k :: i <= k < |m.values| ==> res.values[k] == m.values[k]
    {
      var (next, _) := SetAt(res, i, f(GetAt(res, i)));
      res := next;
      i := i + 1;
    }
    forall r, c | InBounds(m, r, c)
      ensures Get(res, r, c) == Get(Mapped(m, f), r, c)
    {
      IndexInRange(m.rows, m.cols, r, c);
    }
    Extensional(res, Mapped(m, f));
  }

  /** `map(mapper)`: map a copy; the receiver is a value and stays as it was. */
  method Map(m: Mat, f: real -> real, junk: seq<real>) returns (res: Mat)
    requires Valid(m) && |junk| == m.rows * m.cols
    ensures res == Mapped(m, f)
  {
    var copy := Copy(m, junk);
    res := MapInPlace(copy, f);
  }

  /** The innermost loop of `mul`: `val += get(i, k) * other.get(k, j)` for k below `cols`. */
  method DotRowCol(a: Mat, b: Mat, i: int, j: int) returns (val: real)
    requires Valid(a) && Valid(b) && a.cols <= b.rows
    requires 0 <= i < a.rows && 0 <= j < b.cols
    ensures val == RowColSum(a, b, i, j, a.cols)
  {
    val := 0.0;
    var k := 0;
    while k < a.cols
      invariant 0 <= k <= a.cols
      invariant val == RowColSum(a, b, i, j, k)
    {
      val := val + Get(a, i, k) * Get(b, k, j);
      k := k + 1;
    }
  }

  /** `mul(other)`: for every cell in row-major order, accumulate the row-column sum, then store it. */
  method Mul(a: Mat, b: Mat, junk: seq<real>) returns (m: Mat)
    requires Valid(a) && Valid(b) && a.cols <= b.rows
    requires |junk| == a.rows * b.cols
    ensures m == Product(a, b)
  {
    ghost var ref := Product(a, b);
    m := Mat(a.rows, b.cols, junk);
    var i := 0;
    while i < a.rows
      invariant 0 <= i <= a.rows
      invariant MatchesUpTo(m, ref, i, 0)
    {
      var j := 0;
      while j < b.cols
        invariant 0 <= j <= b.cols
        invariant MatchesUpTo(m, ref, i, j)
      {
        var val := DotRowCol(a, b, i, j);
        MatchesStep(m, ref, i, j, val);
        var (next, _) := Set(m, i, j, val);
        m := next;
        j := j + 1;
      }
      MatchesRowDone(m, ref, i);
      i := i + 1;
    }
    MatchesAll(m, ref);
  }

  /**
   * `_transpose` on a square matrix: visit every cell (i, j) in row-major order
   * and, below the diagonal, exchange it with its mirror (j, i).
   */
  method TransposeInPlace(m: Mat) returns (t: Mat)
    requires Valid(m) && m.rows == m.cols
    ensures t == Transposed(m)
  {
    t := m;
    var n := m.rows;
    var i := 0;
    while i < n
      invariant 0 <= i <= n
      invariant TransposedUpTo(m, t, i, 0)
    {
      var j := 0;
      while j < n
        invariant 0 <= j <= n
        invariant TransposedUpTo(m, t, i, j)
      {
        if i > j {
          TransposeSwap(m, t, i, j);
          var val := Get(t, i, j);
          var (t1, _) := Set(t, i, j, Get(t, j, i));
          var (t2, _) := Set(t1, j, i, val);
          t := t2;
        } else {
          TransposeSkip(m, t, i, j);
        }
        j := j + 1;
      }
      TransposeRowDone(m, t, i);
      i := i + 1;
    }
    TransposeAll(m, t);
  }

  /** `transpose()`: transpose a copy. */
  method Transpose(m: Mat, junk: seq<real>) returns (t: Mat)
    requires Valid(m) && m.rows == m.cols && |junk| == m.rows * m.cols
    ensures t == Transposed(m)
  {
    var copy := Copy(m, junk);
    t := TransposeInPlace(copy);
  }

  /** `_swapRows(a, b)`: exchange the two rows cell by cell through a temporary. */
  method SwapRows(m: Mat, a: int, b: int) returns (s: Mat)
    requires Valid(m) && 0 <= a < m.rows && 0 <= b < m.rows
    ensures s == RowsSwapped(m, a, b)
  {
    s := m;
    var i := 0;
    while i < m.cols
      invariant 0 <= i <= m.cols
      invariant SwappedUpTo(m, s, a, b, i)
    {
      SwapStep(m, s, a, b, i);
      var tmp := Get(s, a, i);
      var (s1, _) := Set(s, a, i, Get(s, b, i));
      var (s2, _) := Set(s1, b, i, tmp);
      s := s2;
      i := i + 1;
    }
    SwapAll(m, s, a, b);
  }

  /** `_swapRows(a, b, attached)`: the same exchange on the receiver and on `attached`. */
  method SwapRowsWith(m: Mat, a: int, b: int, attached: Mat) returns (s: Mat, t: Mat)
    requires Valid(m) && 0 <= a < m.rows && 0 <= b < m.rows
    requires Valid(attached) && a < attached.rows && b < attached.rows
    ensures s == RowsSwapped(m, a, b) && t == RowsSwapped(attached, a, b)
  {
    s := SwapRows(m, a, b);
    t := SwapRows(attached, a, b);
  }

  /** The effective upper bound of a row search: a negative `maxRow` means all rows. */
  function RowBound(m: Mat, maxRow: int): int {
    if maxRow < 0 then m.rows else maxRow
  }

  /** The rows the search reads must exist, whenever it reads any. */
  predicate SearchableRange(m: Mat, col: int, maxRow: int, minRow: int) {
    Valid(m) && (minRow < RowBound(m, maxRow) ==> 0 <= minRow && RowBound(m, maxRow) <= m.rows && 0 <= col < m.cols)
  }

  /**
   * `maxRowInCol(col, pre, maxRow, minRow)`: the first row in
   * `[minRow, maxRow)` whose preprocessed entry in column `col` is largest;
   * `minRow` itself when the range is empty.
   */
  method MaxRowInCol(m: Mat, col: int, pre: real -> real, maxRow: int, minRow: int) returns (r: int)
    requires SearchableRange(m, col, maxRow, minRow)
    ensures maxRow < 0 && minRow < m.rows ==> minRow <= r < m.rows
    ensures 0 <= maxRow && minRow < maxRow ==> minRow <= r < maxRow
    ensures RowBound(m, maxRow) <= minRow ==> r == minRow
    ensures minRow < RowBound(m, maxRow) ==> minRow <= r < RowBound(m, maxRow)
    ensures minRow < RowBound(m, maxRow) ==>
      (forall i :: minRow <= i < RowBound(m, maxRow) ==> pre(Get(m, i, col)) <= pre(Get(m, r, col)))
    ensures minRow < RowBound(m, maxRow) ==>
      (forall i :: minRow <= i < r ==> pre(Get(m, i, col)) < pre(Get(m, r, col)))
  {
    var hi := RowBound(m, maxRow);
    r := minRow;
    var i := minRow;
    while i < hi
      invariant minRow < hi ==> minRow <= i <= hi
      invariant minRow <= r && (minRow < hi ==> r < hi && r <= i)
      invariant minRow >= hi ==> r == minRow
      invariant minRow < hi ==> forall k :: minRow <= k < i ==> pre(Get(m, k, col)) <= pre(Get(m, r, col))
      invariant minRow < hi ==> forall k :: minRow <= k < r ==> pre(Get(m, k, col)) < pre(Get(m, r, col))
    {
      var c1 := pre(Get(m, i, col));
      var c2 := pre(Get(m, r, col));
      if c1 > c2 {
        r := i;
      }
      i := i + 1;
    }
  }

  /**
   * `minRowInCol(col, pre, maxRow, minRow)`: the first row in
   * `[minRow, maxRow)` whose preprocessed entry in column `col` is smallest;
   * `minRow` itself when the range is empty.
   */
  method MinRowInCol(m: Mat, col: int, pre: real -> real, maxRow: int, minRow: int) returns (r: int)
    requires SearchableRange(m, col, maxRow, minRow)
    ensures maxRow < 0 && minRow < m.rows ==> minRow <= r < m.rows
    ensures 0 <= maxRow && minRow < maxRow ==> minRow <= r < maxRow
    ensures RowBound(m, maxRow) <= minRow ==> r == minRow
    ensures minRow < RowBound(m, maxRow) ==> minRow <= r < RowBound(m, maxRow)
    ensures minRow < RowBound(m, maxRow) ==>
      (forall i :: minRow <= i < RowBound(m, maxRow) ==> pre(Get(m, r, col)) <= pre(Get(m, i, col)))
    ensures minRow < RowBound(m, maxRow) ==>
      (forall i :: minRow <= i < r ==> pre(Get(m, r, col)) < pre(Get(m, i, col)))
  {
    var hi := RowBound(m, maxRow);
    r := minRow;
    var i := minRow;
    while i < hi
      invariant minRow < hi ==> minRow <= i <= hi
      invariant minRow <= r && (minRow < hi ==> r < hi && r <= i)
      invariant minRow >= hi ==> r == minRow
      invariant minRow < hi ==> forall k :: minRow <= k < i ==> pre(Get(m, r, col)) <= pre(Get(m, k, col))
      invariant minRow < hi ==> forall k :: minRow <= k < r ==> pre(Get(m, r, col)) < pre(Get(m, k, col))
    {
      var c1 := pre(Get(m, i, col));
      var c2 := pre(Get(m, r, col));
      if c1 < c2 {
        r := i;
      }
      i := i + 1;
    }
  }

  /** `equals(other)`: equal dimensions, then every flat entry compared in order. */
  method Equals(a: Mat, b: Mat) returns (eq: bool)
    requires Valid(a) && Valid(b)
    ensures eq <==> a == b
  {
    if a.rows != b.rows || a.cols != b.cols {
      return false;
    }
    var i := 0;
    while i < a.rows * a.cols
      invariant 0 <= i <= a.rows * a.cols
      invariant a.values[..i] == b.values[..i]
    {
      if GetAt(a, i) != GetAt(b, i) {
        return false;
      }
      assert a.values[..i + 1] == a.values[..i] + [a.values[i]];
      assert b.values[..i + 1] == b.values[..i] + [b.values[i]];
      i := i + 1;
    }
    assert a.values == a.values[..i] && b.values == b.values[..i];
    return true;
  }
}
