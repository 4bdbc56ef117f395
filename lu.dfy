/** Crout LU decomposition with implicit partial pivoting, the matching
    forward and back substitution, and the column-by-column inverse built
    on them (`ludcmp`, `lubksb` and `InverseMatrix` of class Broyden).

    Matrices and vectors are 1-indexed as in the source: a matrix of order
    n lives in rows and columns 1..n of an `array2` with at least n + 1 rows
    and columns, and row and column 0 are never read or written. */
module LuSolver {
  import opened ComplexNumbers

  /** The constant a zero pivot is replaced by. */
  const TINY: real := 1.0e-20

  // ---- Zero rows and row maxima ----

  /** Row i of a[1..n][1..n] holds only zeros. */
  ghost predicate ZeroRow(a: array2<Complex>, n: int, i: int)
    requires 0 <= i < a.Length0 && n < a.Length1
    reads a
  {
    forall j :: 1 <= j <= n ==> a[i, j] == Zero
  }

  /** Some row of a[1..n][1..n] holds only zeros: the matrix is singular
      in the way `ludcmp` detects. */
  ghost predicate HasZeroRow(a: array2<Complex>, n: int)
    requires n < a.Length0 && n < a.Length1
    reads a
  {
    exists i :: 1 <= i <= n && ZeroRow(a, n, i)
  }

  /** The largest |a[i][j]|^2 over 1 <= j <= k, kept the way the scan keeps
      it: starting from 0 and replaced only by a strictly larger value. */
  ghost function RowMaxSq(a: array2<Complex>, i: int, k: int): real
    requires 0 <= i < a.Length0 && 0 <= k < a.Length1
    reads a
    decreases k
  {
    if k == 0 then 0.0
    else
      var m := RowMaxSq(a, i, k - 1);
      if NormSq(a[i, k]) > m then NormSq(a[i, k]) else m
  }

  /** The row maximum bounds every entry of the row, is reached by one of
      them unless it is 0, and is 0 exactly on an all-zero row. */
  lemma {:induction false} RowMaxSqIsMax(a: array2<Complex>, i: int, k: int)
    requires 0 <= i < a.Length0 && 0 <= k < a.Length1
    ensures RowMaxSq(a, i, k) >= 0.0
    ensures forall j :: 1 <= j <= k ==> NormSq(a[i, j]) <= RowMaxSq(a, i, k)
    ensures RowMaxSq(a, i, k) == 0.0 || exists j :: 1 <= j <= k && RowMaxSq(a, i, k) == NormSq(a[i, j])
    ensures RowMaxSq(a, i, k) == 0.0 <==> forall j :: 1 <= j <= k ==> a[i, j] == Zero
  {
    if k > 0 {
      RowMaxSqIsMax(a, i, k - 1);
      NormSqSign(a[i, k]);
      forall j | 1 <= j < k
        ensures a[i, j] == Zero <==> NormSq(a[i, j]) == 0.0
      {
        NormSqSign(a[i, j]);
      }
    }
  }

  // ---- Row scaling: the first loop of ludcmp ----

  /** The row scan of `ludcmp`: `vv[i]` becomes the implicit scaling of row
      i, here 1 / max_j |a[i][j]|^2 (the square of the source's 1 / max_j
      |a[i][j]|, which ranks candidate pivots the same way). It stops with
      false at the first all-zero row, having written only `vv`. */
  method RowScales(a: array2<Complex>, n: int, vv: array<real>) returns (ok: bool)
    requires 0 <= n < a.Length0 && n < a.Length1 && vv.Length == n + 1
    modifies vv
    ensures ok <==> !HasZeroRow(a, n)
    ensures ok ==> forall i :: 1 <= i <= n ==>
      RowMaxSq(a, i, n) > 0.0 && vv[i] == Quot(1.0, RowMaxSq(a, i, n)) && vv[i] > 0.0
  {
    var i := 1;
    while i <= n
      invariant 1 <= i <= n + 1
      invariant forall r :: 1 <= r < i ==> !ZeroRow(a, n, r)
      invariant forall r :: 1 <= r < i ==>
        RowMaxSq(a, r, n) > 0.0 && vv[r] == Quot(1.0, RowMaxSq(a, r, n)) && vv[r] > 0.0
    {
      var big := RowMax(a, n, i);
      RowMaxSqIsMax(a, i, n);
      if big == 0.0 {
        assert ZeroRow(a, n, i);
        return false;
      }
      vv[i] := Quot(1.0, big);
      QuotPositive(1.0, big);
      i := i + 1;
    }
    return true;
  }

  /** The inner scan of one row: the largest squared modulus in it. */
  method RowMax(a: array2<Complex>, n: int, i: int) returns (big: real)
    requires 0 <= n < a.Length1 && 0 <= i < a.Length0
    ensures big == RowMaxSq(a, i, n)
  {
    big := 0.0;
    var j := 1;
    while j <= n
      invariant 1 <= j <= n + 1
      invariant big == RowMaxSq(a, i, j - 1)
    {
      var temp := NormSq(a[i, j]);
      if temp > big {
        big := temp;
      }
      j := j + 1;
    }
  }

  // ---- Crout elimination: the column loop of ludcmp ----

  /** sum_{lo <= k < hi} a[i][k] * a[k][j]. */
  ghost function RowColDot(a: array2<Complex>, i: int, j: int, lo: int, hi: int): Complex
    requires 0 <= i < a.Length0 && 0 <= j < a.Length1
    requires 0 <= lo <= hi <= a.Length0 && hi <= a.Length1
    reads a
    decreases hi - lo
  {
    if lo == hi then Zero else Add(RowColDot(a, i, j, lo, hi - 1), Mul(a[i, hi - 1], a[hi - 1, j]))
  }

  /** Crout's inner sum: a[i][j] minus a[i][k] * a[k][j] for k = 1 .. kmax - 1. */
  method CroutSum(a: array2<Complex>, i: int, j: int, kmax: int) returns (sum: Complex)
    requires 0 <= i < a.Length0 && 0 <= j < a.Length1
    requires 1 <= kmax <= a.Length0 && kmax <= a.Length1
    ensures Add(sum, RowColDot(a, i, j, 1, kmax)) == a[i, j]
  {
    sum := a[i, j];
    var k := 1;
    while k < kmax
      invariant 1 <= k <= kmax
      invariant Add(sum, RowColDot(a, i, j, 1, k)) == a[i, j]
    {
      sum := Sub(sum, Mul(a[i, k], a[k, j]));
      k := k + 1;
    }
  }

  /** a[i][j] becomes its Crout sum over k = 1 .. kmax - 1; as kmax <= i and
      kmax <= j, no such sum reads the entry written. */
  method StoreCroutSum(a: array2<Complex>, i: int, j: int, kmax: int)
    requires 0 <= i < a.Length0 && 0 <= j < a.Length1
    requires 1 <= kmax <= i && kmax <= j
    modifies a
    ensures Add(a[i, j], RowColDot(a, i, j, 1, kmax)) == old(a[i, j])
    ensures forall r, c :: 0 <= r < a.Length0 && 0 <= c < a.Length1 && (r != i || c != j) ==>
      a[r, c] == old(a[r, c])
    ensures forall r, h :: 0 <= r < a.Length0 && 1 <= h <= i && h <= a.Length1 && (r != i || h <= j) ==>
      RowColDot(a, r, j, 1, h) == old(RowColDot(a, r, j, 1, h))
  {
    var sum := CroutSum(a, i, j, kmax);
    a[i, j] := sum;
    // Induction on h, as a ghost loop because it compares the table before
    // and after the write: the sums up to h read a[r][k] and a[k][j] for
    // k < h only, so one more term at a time they are unchanged.
    ghost var h := 1;
    while h < i && h < a.Length1
      invariant 1 <= h <= i && h <= a.Length1
      invariant forall r, g :: 0 <= r < a.Length0 && 1 <= g <= h && (r != i || g <= j) ==>
        RowColDot(a, r, j, 1, g) == old(RowColDot(a, r, j, 1, g))
    {
      h := h + 1;
    }
  }

  /** Rows 1 .. j - 1 of column j become the upper-triangular factor: each
      entry a[i][j] plus sum_{1 <= k < i} a[i][k] * a[k][j] gives back the
      entry it replaced, the sum reading the factor entries already stored. */
  method UpperColumn(a: array2<Complex>, n: int, j: int)
    requires 1 <= j <= n < a.Length0 && n < a.Length1
    modifies a
    ensures forall i :: 1 <= i < j ==> Add(a[i, j], RowColDot(a, i, j, 1, i)) == old(a[i, j])
    ensures forall r, c :: 0 <= r < a.Length0 && 0 <= c < a.Length1 && (c != j || r == 0 || r >= j) ==>
      a[r, c] == old(a[r, c])
  {
    var i := 1;
    while i < j
      invariant 1 <= i <= j
      invariant forall r :: 1 <= r < i ==> Add(a[r, j], RowColDot(a, r, j, 1, r)) == old(a[r, j])
      invariant forall r, c :: 0 <= r < a.Length0 && 0 <= c < a.Length1 && (c != j || r == 0 || r >= i) ==>
        a[r, c] == old(a[r, c])
    {
      StoreCroutSum(a, i, j, i);
      i := i + 1;
    }
  }

  /** Row imax is the last of rows j .. n whose scaled candidate
      vv[i] * |a[i][j]|^2 is largest. */
  ghost predicate LargestCandidate(a: array2<Complex>, vv: array<real>, n: int, j: int, imax: int)
    requires 1 <= j <= imax <= n < a.Length0 && n < a.Length1 && vv.Length == n + 1
    reads a, vv
  {
    (forall i :: j <= i <= n ==> Times(vv[i], NormSq(a[i, j])) <= Times(vv[imax], NormSq(a[imax, j]))) &&
    (forall i :: imax < i <= n ==> Times(vv[i], NormSq(a[i, j])) < Times(vv[imax], NormSq(a[imax, j])))
  }

  /** Rows j .. n of column j get their Crout sums, and the pivot row is the
      last row whose scaled candidate vv[i] * |a[i][j]|^2 is largest. */
  method LowerColumnPivot(a: array2<Complex>, n: int, j: int, vv: array<real>) returns (imax: int)
    requires 1 <= j <= n < a.Length0 && n < a.Length1 && vv.Length == n + 1
    requires PositiveScales(vv, n)
    modifies a
    ensures j <= imax <= n
    ensures LargestCandidate(a, vv, n, j, imax)
    ensures forall i :: j <= i <= n ==> Add(a[i, j], RowColDot(a, i, j, 1, j)) == old(a[i, j])
    ensures forall i :: 1 <= i < j ==> RowColDot(a, i, j, 1, i) == old(RowColDot(a, i, j, 1, i))
    ensures forall r, c :: 0 <= r < a.Length0 && 0 <= c < a.Length1 && (c != j || r < j || r > n) ==>
      a[r, c] == old(a[r, c])
  {
    var big := 0.0;
    imax := j;
    var i := j;
    while i <= n
      invariant j <= i <= n + 1
      invariant i == j ==> big == 0.0
      invariant i > j ==> j <= imax < i && big == Times(vv[imax], NormSq(a[imax, j]))
      invariant forall r :: j <= r < i ==> Times(vv[r], NormSq(a[r, j])) <= big
      invariant forall r :: imax < r < i ==> Times(vv[r], NormSq(a[r, j])) < big
      invariant forall r :: j <= r < i ==> Add(a[r, j], RowColDot(a, r, j, 1, j)) == old(a[r, j])
      invariant forall r :: 1 <= r < j ==> RowColDot(a, r, j, 1, r) == old(RowColDot(a, r, j, 1, r))
      invariant forall r, c :: 0 <= r < a.Length0 && 0 <= c < a.Length1 && (c != j || r < j || r >= i) ==>
        a[r, c] == old(a[r, c])
    {
      StoreCroutSum(a, i, j, j);
      var sum := a[i, j];
      NormSqSign(sum);
      TimesNonneg(vv[i], NormSq(sum));
      var dum := Times(vv[i], NormSq(sum));
      if dum >= big {
        big := dum;
        imax := i;
      }
      i := i + 1;
    }
  }

  /** Rows j and imax trade places over columns 1..n. */
  method SwapRows(a: array2<Complex>, n: int, j: int, imax: int)
    requires 1 <= j <= n < a.Length0 && n < a.Length1 && 1 <= imax <= n
    modifies a
    ensures forall k :: 1 <= k <= n ==> a[j, k] == old(a[imax, k]) && a[imax, k] == old(a[j, k])
    ensures forall r, c :: 0 <= r < a.Length0 && 0 <= c < a.Length1 && ((r != j && r != imax) || c == 0 || c > n) ==>
      a[r, c] == old(a[r, c])
    ensures forall i, c :: 1 <= i <= n && 1 <= c <= n ==> a[i, c] == old(a[SwapIndex(i, j, imax), c])
    ensures forall i, h :: 1 <= i <= n && 1 <= h <= j && h <= imax ==>
      RowColDot(a, i, j, 1, h) == old(RowColDot(a, SwapIndex(i, j, imax), j, 1, h))
  {
    var k := 1;
    while k <= n
      invariant 1 <= k <= n + 1
      invariant forall q :: 1 <= q < k ==> a[j, q] == old(a[imax, q]) && a[imax, q] == old(a[j, q])
      invariant forall r, c :: 0 <= r < a.Length0 && 0 <= c < a.Length1 && ((r != j && r != imax) || c == 0 || c >= k) ==>
        a[r, c] == old(a[r, c])
    {
      var cdum := a[imax, k];
      a[imax, k] := a[j, k];
      a[j, k] := cdum;
      k := k + 1;
    }
    // Induction on h, as a ghost loop because it compares the table before
    // and after the exchange: a sum up to h reads column j only above both
    // exchanged rows, so each term moves with its row.
    ghost var h := 1;
    while h < j && h < imax
      invariant 1 <= h <= j && h <= imax
      invariant forall i, g :: 1 <= i <= n && 1 <= g <= h ==>
        RowColDot(a, i, j, 1, g) == old(RowColDot(a, SwapIndex(i, j, imax), j, 1, g))
    {
      h := h + 1;
    }
  }

  /** Entries j + 1 .. n of column j, below the pivot. */
  ghost function Below(a: array2<Complex>, n: int, j: int): (col: seq<Complex>)
    requires 0 <= j <= n < a.Length0 && j < a.Length1
    reads a
    ensures |col| == n - j && forall i :: j < i <= n ==> col[i - j - 1] == a[i, j]
  {
    seq(n - j, k requires 0 <= k < n - j reads a => a[j + 1 + k, j])
  }

  /** Rows j + 1 .. n of column j hold the entries `below` divided by the
      pivot: multiplying each back by the pivot gives the entry it replaced. */
  ghost predicate DividedBelow(a: array2<Complex>, below: seq<Complex>, n: int, j: int, pivot: Complex)
    requires 0 <= j <= n < a.Length0 && j < a.Length1 && |below| == n - j
    reads a
  {
    forall i :: j < i <= n ==> Mul(a[i, j], pivot) == below[i - j - 1]
  }

  /** Rows j + 1 .. n of column j are divided by the pivot a[j][j]. */
  method ScaleBelow(a: array2<Complex>, n: int, j: int)
    requires 1 <= j < n < a.Length0 && n < a.Length1 && a[j, j] != Zero
    modifies a
    ensures a[j, j] == old(a[j, j])
    ensures DividedBelow(a, old(Below(a, n, j)), n, j, a[j, j])
    ensures forall r, c :: 0 <= r < a.Length0 && 0 <= c < a.Length1 && (c != j || r <= j || r > n) ==>
      a[r, c] == old(a[r, c])
  {
    var cdum := Div(One, a[j, j]);
    var i := j + 1;
    while i <= n
      invariant j + 1 <= i <= n + 1
      invariant a[j, j] == old(a[j, j])
      invariant forall r :: j < r < i ==> Mul(a[r, j], a[j, j]) == old(a[r, j])
      invariant forall r, c :: 0 <= r < a.Length0 && 0 <= c < a.Length1 && (c != j || r <= j || r >= i) ==>
        a[r, c] == old(a[r, c])
    {
      Cancel(a[i, j], a[j, j]);
      a[i, j] := Mul(a[i, j], cdum);
      i := i + 1;
    }
  }

  /** The row scales vv[1..n] are positive. */
  ghost predicate PositiveScales(vv: array<real>, n: int)
    requires n < vv.Length
    reads vv
  {
    forall i :: 1 <= i <= n ==> vv[i] > 0.0
  }

  /** Pivot rows in range and nonzero pivots for columns 1..k. */
  ghost predicate Pivoted(a: array2<Complex>, indx: array<int>, n: int, k: int)
    requires k <= n < a.Length0 && n < a.Length1 && n < indx.Length
    reads a, indx
  {
    forall j :: 1 <= j <= k ==> j <= indx[j] <= n && a[j, j] != Zero
  }

  /** A zero pivot a[j][j] becomes TINY, and the rows below are divided by it. */
  method DivideByPivot(a: array2<Complex>, n: int, j: int)
    requires 1 <= j <= n < a.Length0 && n < a.Length1
    modifies a
    ensures a[j, j] == (if old(a[j, j]) == Zero then FromReal(TINY) else old(a[j, j]))
    ensures a[j, j] != Zero && DividedBelow(a, old(Below(a, n, j)), n, j, a[j, j])
    ensures forall r, c :: 0 <= r < a.Length0 && 0 <= c < a.Length1 && (c != j || r < j || r > n) ==>
      a[r, c] == old(a[r, c])
    ensures forall i, h :: 0 <= i < a.Length0 && 1 <= h <= j ==> RowColDot(a, i, j, 1, h) == old(RowColDot(a, i, j, 1, h))
  {
    if a[j, j] == Zero {
      a[j, j] := FromReal(TINY);
      assert Below(a, n, j) == old(Below(a, n, j));
    }
    if j != n {
      ScaleBelow(a, n, j);
    }
    // Induction on h, as a ghost loop because it compares the table before
    // and after the division: a sum up to h <= j reads columns before j and
    // column j above row j, none of which was written.
    ghost var h := 1;
    while h < j
      invariant 1 <= h <= j
      invariant forall i, g :: 0 <= i < a.Length0 && 1 <= g <= h ==> RowColDot(a, i, j, 1, g) == old(RowColDot(a, i, j, 1, g))
    {
      h := h + 1;
    }
  }

  /** Where row i of the result came from when rows j and p trade places. */
  function SwapIndex(i: int, j: int, p: int): (r: int)
    ensures (r == i) == ((i != j && i != p) || j == p)
    ensures i == j ==> r == p
    ensures i == p ==> r == j
  {
    if i == j then p else if i == p then j else i
  }

  /** Rows j and imax trade places, the scale of row j moves to row imax
      (row j's own scale is not read again) and indx[j] records imax. */
  method ExchangeRows(a: array2<Complex>, n: int, indx: array<int>, vv: array<real>, j: int, imax: int)
    requires 1 <= j <= imax <= n < a.Length0 && n < a.Length1 && n < indx.Length && vv.Length == n + 1
    requires PositiveScales(vv, n)
    modifies a, indx, vv
    ensures PositiveScales(vv, n)
    ensures indx[j] == imax && forall k :: 0 <= k < indx.Length && k != j ==> indx[k] == old(indx[k])
    ensures forall i, c :: 1 <= i <= n && 1 <= c <= n ==> a[i, c] == old(a[SwapIndex(i, j, imax), c])
    ensures forall i, h :: 1 <= i <= n && 1 <= h <= j ==>
      RowColDot(a, i, j, 1, h) == old(RowColDot(a, SwapIndex(i, j, imax), j, 1, h))
    ensures forall r, c :: 0 <= r < a.Length0 && 0 <= c < a.Length1 && (r < j || c == 0 || r > n || c > n) ==>
      a[r, c] == old(a[r, c])
  {
    if j != imax {
      SwapRows(a, n, j, imax);
      vv[imax] := vv[j];
    }
    indx[j] := imax;
  }

  /** The pivoting half of the column pass: rows j and imax trade places,
      the pivot row is recorded and the entries below the pivot are divided
      by it. Rows above j are untouched, and the Crout sums of rows j .. n
      move with their rows. */
  method PivotColumn(a: array2<Complex>, n: int, indx: array<int>, vv: array<real>, j: int, imax: int)
    requires 1 <= j <= imax <= n < a.Length0 && n < a.Length1 && n < indx.Length && vv.Length == n + 1
    requires PositiveScales(vv, n)
    requires Pivoted(a, indx, n, j - 1)
    modifies a, indx, vv
    ensures PositiveScales(vv, n)
    ensures Pivoted(a, indx, n, j) && indx[j] == imax
    ensures forall k :: 0 <= k < indx.Length && k != j ==> indx[k] == old(indx[k])
    ensures a[j, j] == (if old(a[imax, j]) == Zero then FromReal(TINY) else old(a[imax, j]))
    ensures forall i :: j < i <= n ==> Mul(a[i, j], a[j, j]) == old(a[SwapIndex(i, j, imax), j])
    ensures forall i :: j <= i <= n ==> RowColDot(a, i, j, 1, j) == old(RowColDot(a, SwapIndex(i, j, imax), j, 1, j))
    ensures forall i :: 1 <= i < j ==> RowColDot(a, i, j, 1, i) == old(RowColDot(a, i, j, 1, i))
    ensures forall i, c :: 1 <= i <= n && 1 <= c <= n && c != j ==> a[i, c] == old(a[SwapIndex(i, j, imax), c])
    ensures forall r, c :: 0 <= r < a.Length0 && 0 <= c < a.Length1 && (r < j || c == 0 || r > n || c > n) ==>
      a[r, c] == old(a[r, c])
  {
    ExchangeRows(a, n, indx, vv, j, imax);
    DivideByPivot(a, n, j);
  }

  /** The elimination half of the column pass: every entry of column j in
      rows 1 .. n has its Crout sum subtracted, the sum running up to the
      diagonal above it and up to column j on and below it; imax is the
      pivot row chosen among rows j .. n. Nothing outside column j moves. */
  method CroutColumn(a: array2<Complex>, n: int, j: int, vv: array<real>) returns (imax: int)
    requires 1 <= j <= n < a.Length0 && n < a.Length1 && vv.Length == n + 1
    requires PositiveScales(vv, n)
    modifies a
    ensures j <= imax <= n
    ensures LargestCandidate(a, vv, n, j, imax)
    ensures forall i :: 1 <= i < j ==> Add(a[i, j], RowColDot(a, i, j, 1, i)) == old(a[i, j])
    ensures forall i :: j <= i <= n ==> Add(a[i, j], RowColDot(a, i, j, 1, j)) == old(a[i, j])
    ensures forall r, c :: 0 <= r < a.Length0 && 0 <= c < a.Length1 && (c != j || r == 0 || r > n) ==>
      a[r, c] == old(a[r, c])
  {
    UpperColumn(a, n, j);
    label Upper:
    imax := LowerColumnPivot(a, n, j, vv);
    assert forall i :: 1 <= i < j ==> Add(a[i, j], RowColDot(a, i, j, 1, i)) == old(a[i, j]) by {
      forall i | 1 <= i < j
        ensures Add(a[i, j], RowColDot(a, i, j, 1, i)) == old(a[i, j])
      {
        assert a[i, j] == old@Upper(a[i, j]);
        assert RowColDot(a, i, j, 1, i) == old@Upper(RowColDot(a, i, j, 1, i));
      }
    }
  }

  /** One pass of the column loop of `ludcmp` for column j. With p = indx[j]
      the pivot row, and writing S(i) for sum_{1 <= k < h} a[i][k] * a[k][j]
      with h = min(i, j), the entries of column j now solve Crout's equations
      for the matrix with rows j and p exchanged: a[i][j] + S(i) gives back
      a[i][j] above the diagonal; the pivot is the remainder at row p, or
      TINY when that remainder is zero; and below the diagonal
      a[i][j] * pivot + S(i) gives back the entry of row i after the
      exchange. */
  method EliminateColumn(a: array2<Complex>, n: int, indx: array<int>, vv: array<real>, j: int)
    requires 1 <= j <= n < a.Length0 && n < a.Length1 && n < indx.Length && vv.Length == n + 1
    requires PositiveScales(vv, n)
    requires Pivoted(a, indx, n, j - 1)
    modifies a, indx, vv
    ensures PositiveScales(vv, n)
    ensures Pivoted(a, indx, n, j)
    ensures forall k :: 0 <= k < indx.Length && k != j ==> indx[k] == old(indx[k])
    ensures forall i :: 1 <= i < j ==> Add(a[i, j], RowColDot(a, i, j, 1, i)) == old(a[i, j])
    ensures var p := indx[j]; var s := Sub(old(a[p, j]), RowColDot(a, j, j, 1, j));
      a[j, j] == (if s == Zero then FromReal(TINY) else s)
    ensures var p := indx[j]; forall i :: j < i <= n ==>
      Add(Mul(a[i, j], a[j, j]), RowColDot(a, i, j, 1, j)) == old(a[SwapIndex(i, j, p), j])
    ensures var p := indx[j]; forall i, c :: 1 <= i <= n && 1 <= c <= n && c != j ==>
      a[i, c] == old(a[SwapIndex(i, j, p), c])
    ensures forall r, c :: 0 <= r < a.Length0 && 0 <= c < a.Length1 && (r == 0 || c == 0 || r > n || c > n) ==>
      a[r, c] == old(a[r, c])
  {
    var imax := CroutColumn(a, n, j, vv);
    label Crout:
    PivotColumn(a, n, indx, vv, j, imax);
    // Crout's equation for row q before the exchange, read at row i after it.
    assert forall i :: j <= i <= n ==>
      Add(old@Crout(a[SwapIndex(i, j, imax), j]), RowColDot(a, i, j, 1, j)) == old(a[SwapIndex(i, j, imax), j])
    by {
      forall i | j <= i <= n
        ensures Add(old@Crout(a[SwapIndex(i, j, imax), j]), RowColDot(a, i, j, 1, j)) == old(a[SwapIndex(i, j, imax), j])
      {
        var q := SwapIndex(i, j, imax);
        assert old@Crout(RowColDot(a, q, j, 1, j)) == RowColDot(a, i, j, 1, j);
      }
    }
  }

  /** `ludcmp`: replaces a[1..n][1..n] by the LU decomposition of a row
      permutation of itself, recording the pivot row of step j in indx[j].
      It fails, before writing anything, exactly when some row is all zero;
      on success every pivot row lies in [j, n] and every diagonal entry is
      nonzero (a zero pivot is replaced by TINY). */
  method LuDecompose(a: array2<Complex>, n: int, indx: array<int>) returns (ok: bool)
    requires 0 <= n < a.Length0 && n < a.Length1 && n < indx.Length
    modifies a, indx
    ensures !ok <==> old(HasZeroRow(a, n))
    ensures !ok ==> unchanged(a) && unchanged(indx)
    ensures ok ==> Pivoted(a, indx, n, n)
    ensures forall k :: 0 <= k < indx.Length && (k == 0 || k > n) ==> indx[k] == old(indx[k])
    ensures forall r, c :: 0 <= r < a.Length0 && 0 <= c < a.Length1 && (r == 0 || c == 0 || r > n || c > n) ==>
      a[r, c] == old(a[r, c])
  {
    var vv := new real[n + 1];
    ok := RowScales(a, n, vv);
    if !ok {
      return;
    }
    var j := 1;
    while j <= n
      invariant 1 <= j <= n + 1
      invariant PositiveScales(vv, n)
      invariant Pivoted(a, indx, n, j - 1)
      invariant forall k :: 0 <= k < indx.Length && (k == 0 || k > n) ==> indx[k] == old(indx[k])
      invariant forall r, c :: 0 <= r < a.Length0 && 0 <= c < a.Length1 && (r == 0 || c == 0 || r > n || c > n) ==>
        a[r, c] == old(a[r, c])
    {
      EliminateColumn(a, n, indx, vv, j);
      j := j + 1;
    }
  }

  // ---- Forward and back substitution: lubksb ----

  /** sum_{lo <= k < hi} a[r][k] * x[k]. */
  ghost function Dot(a: array2<Complex>, r: int, x: seq<Complex>, lo: int, hi: int): Complex
    requires 0 <= r < a.Length0 && 0 <= lo <= hi <= |x| && hi <= a.Length1
    reads a
    decreases hi - lo
  {
    if lo == hi then Zero else Add(Dot(a, r, x, lo, hi - 1), Mul(a[r, hi - 1], x[hi - 1]))
  }

  /** s minus a[r][k] * x[k] for k = lo, lo + 1, ..., hi - 1 in that order:
      what the inner loops of `lubksb` compute. */
  ghost function RowSub(a: array2<Complex>, r: int, x: seq<Complex>, lo: int, hi: int, s: Complex): Complex
    requires 0 <= r < a.Length0 && 0 <= lo <= hi <= |x| && hi <= a.Length1
    reads a
    decreases hi - lo
  {
    if lo == hi then s else Sub(RowSub(a, r, x, lo, hi - 1, s), Mul(a[r, hi - 1], x[hi - 1]))
  }

  /** Subtracting the terms one by one removes their sum. */
  lemma {:induction false} RowSubDot(a: array2<Complex>, r: int, x: seq<Complex>, lo: int, hi: int, s: Complex)
    requires 0 <= r < a.Length0 && 0 <= lo <= hi <= |x| && hi <= a.Length1
    ensures Add(RowSub(a, r, x, lo, hi, s), Dot(a, r, x, lo, hi)) == s
    decreases hi - lo
  {
    if lo < hi {
      RowSubDot(a, r, x, lo, hi - 1, s);
    }
  }

  /** Dot only looks at x[lo..hi]. */
  lemma {:induction false} DotFrame(a: array2<Complex>, r: int, x: seq<Complex>, x': seq<Complex>, lo: int, hi: int)
    requires 0 <= r < a.Length0 && 0 <= lo <= hi <= |x| && hi <= |x'| && hi <= a.Length1
    requires forall k :: lo <= k < hi ==> x[k] == x'[k]
    ensures Dot(a, r, x, lo, hi) == Dot(a, r, x', lo, hi)
    decreases hi - lo
  {
    if lo < hi {
      DotFrame(a, r, x, x', lo, hi - 1);
    }
  }

  /** Leading zeros of x contribute nothing: Dot from lo equals Dot from mid. */
  lemma {:induction false} DotSkipZeros(a: array2<Complex>, r: int, x: seq<Complex>, lo: int, mid: int, hi: int)
    requires 0 <= r < a.Length0 && 0 <= lo <= mid <= hi <= |x| && hi <= a.Length1
    requires forall k :: lo <= k < mid ==> x[k] == Zero
    ensures Dot(a, r, x, lo, hi) == Dot(a, r, x, mid, hi)
    decreases hi - lo
  {
    if mid == hi {
      if lo < hi {
        DotSkipZeros(a, r, x, lo, mid - 1, hi - 1);
        MulZero(a[r, hi - 1]);
      }
    } else {
      DotSkipZeros(a, r, x, lo, mid, hi - 1);
    }
  }

  /** s with positions i and p exchanged. */
  function Swap<T>(s: seq<T>, i: int, p: int): (r: seq<T>)
    requires 0 <= i < |s| && 0 <= p < |s|
    ensures |r| == |s| && r[i] == s[p] && r[p] == s[i]
    ensures forall k :: 0 <= k < |s| && k != i && k != p ==> r[k] == s[k]
  {
    s[i := s[p]][p := s[i]]
  }

  /** The pivot rows recorded in indx, each within range and not above its step. */
  ghost predicate PivotRows(indx: seq<int>, n: int)
  {
    n < |indx| && forall i :: 1 <= i <= n ==> i <= indx[i] <= n
  }

  /** b after the row exchanges of steps 1..k: step i exchanges positions i
      and indx[i]. */
  ghost function Permuted(b: seq<Complex>, indx: seq<int>, k: int): (r: seq<Complex>)
    requires 0 <= k < |indx| && k < |b|
    requires forall i :: 1 <= i <= k ==> 0 <= indx[i] < |b|
    ensures |r| == |b|
    decreases k
  {
    if k == 0 then b else Swap(Permuted(b, indx, k - 1), k, indx[k])
  }

  /** Once step i is done, position i is left alone by the later exchanges. */
  lemma {:induction false} PermutedStable(b: seq<Complex>, indx: seq<int>, i: int, k: int)
    requires 1 <= i <= k < |indx| && k < |b|
    requires forall q :: 1 <= q <= k ==> q <= indx[q] < |b|
    ensures Permuted(b, indx, k)[i] == Permuted(b, indx, i)[i]
    decreases k
  {
    if k > i {
      PermutedStable(b, indx, i, k - 1);
    }
  }

  /** Row i of L applied to y, L being unit lower triangular. */
  ghost function LowerRow(a: array2<Complex>, y: seq<Complex>, i: int): Complex
    requires 1 <= i < a.Length0 && i < |y| && i <= a.Length1
    reads a
  {
    Add(y[i], Dot(a, i, y, 1, i))
  }

  /** Row i of U applied to x, U being upper triangular of order n. */
  ghost function UpperRow(a: array2<Complex>, n: int, x: seq<Complex>, i: int): Complex
    requires 0 <= i < a.Length0 && i <= n < |x| && n < a.Length1
    reads a
  {
    Add(Mul(a[i, i], x[i]), Dot(a, i, x, i + 1, n + 1))
  }

  /** y solves the unit lower-triangular system L y = pb held below the
      diagonal of a. */
  ghost predicate LowerSolves(a: array2<Complex>, n: int, pb: seq<Complex>, y: seq<Complex>)
    requires n < a.Length0 && n < a.Length1 && n < |pb| && n < |y|
    reads a
  {
    forall i :: 1 <= i <= n ==> LowerRow(a, y, i) == pb[i]
  }

  /** x solves the upper-triangular system U x = y held on and above the
      diagonal of a. */
  ghost predicate UpperSolves(a: array2<Complex>, n: int, y: seq<Complex>, x: seq<Complex>)
    requires n < a.Length0 && n < a.Length1 && n < |y| && n < |x|
    reads a
  {
    forall i :: 1 <= i <= n ==> UpperRow(a, n, x, i) == y[i]
  }

  /** The state of the forward pass of `lubksb`: the vector and the index
      `ii` of the first nonzero entry met so far (0 while there is none). */
  datatype Forward = Forward(x: seq<Complex>, first: int)

  /** Step i of the forward pass: the right-hand side is taken from
      position indx[i] and x[i] moves into that position; the terms of row
      i of L are subtracted from position `first` on (none while `first` is
      0), and i becomes `first` when the result is the first nonzero. */
  ghost function ForwardStep(a: array2<Complex>, st: Forward, indx: seq<int>, i: int): (r: Forward)
    requires 1 <= i < a.Length0 && i <= a.Length1 && i < |st.x| && i < |indx| && i <= indx[i] < |st.x|
    requires 0 <= st.first < i
    reads a
    ensures |r.x| == |st.x| && 0 <= r.first <= i
  {
    var ip := indx[i];
    var x1 := st.x[ip := st.x[i]];
    var sum := if st.first != 0 then RowSub(a, i, x1, st.first, i, st.x[ip]) else st.x[ip];
    Forward(x1[i := sum], if st.first == 0 && sum != Zero then i else st.first)
  }

  /** The forward pass after steps 1..i. */
  ghost function ForwardPass(a: array2<Complex>, b0: seq<Complex>, indx: seq<int>, n: int, i: int): (r: Forward)
    requires 0 <= i <= n < a.Length0 && n < a.Length1 && n < |b0| && PivotRows(indx, n)
    reads a
    ensures |r.x| == |b0| && 0 <= r.first <= i
    decreases i
  {
    if i == 0 then Forward(b0, 0) else ForwardStep(a, ForwardPass(a, b0, indx, n, i - 1), indx, i)
  }

  /** The entries of st.x before `first` (all of x[1..i], while `first`
      is 0) are zero. */
  ghost predicate LeadingZeros(st: Forward, i: int)
    requires 0 <= i < |st.x|
  {
    if st.first == 0 then forall k :: 1 <= k <= i ==> st.x[k] == Zero
    else st.first <= i && forall k :: 1 <= k < st.first ==> st.x[k] == Zero
  }

  /** What the forward pass has achieved after step i: rows 1..i of
      L y = P b hold, the rest of the vector is the right-hand side
      permuted by steps 1..i, and `first` marks the leading zeros. */
  ghost predicate ForwardDone(a: array2<Complex>, b0: seq<Complex>, indx: seq<int>, n: int, i: int, st: Forward)
    requires 0 <= i <= n < a.Length0 && n < a.Length1 && n < |b0| && PivotRows(indx, n)
    reads a
  {
    && |st.x| == |b0|
    && (forall k :: 1 <= k <= i ==> LowerRow(a, st.x, k) == Permuted(b0, indx, n)[k])
    && (forall k :: i < k < |b0| ==> st.x[k] == Permuted(b0, indx, i)[k])
    && st.x[0] == b0[0]
    && LeadingZeros(st, i)
  }

  lemma {:induction false} ForwardPassSolves(a: array2<Complex>, b0: seq<Complex>, indx: seq<int>, n: int, i: int)
    requires 0 <= i <= n < a.Length0 && n < a.Length1 && n < |b0| && PivotRows(indx, n)
    ensures ForwardDone(a, b0, indx, n, i, ForwardPass(a, b0, indx, n, i))
    decreases i
  {
    if i > 0 {
      ForwardPassSolves(a, b0, indx, n, i - 1);
      ForwardDoneStep(a, b0, indx, n, i, ForwardPass(a, b0, indx, n, i - 1));
    } else {
      assert Permuted(b0, indx, 0) == b0;
    }
  }

  /** One step of the forward pass carries ForwardDone from i - 1 to i. */
  lemma ForwardDoneStep(a: array2<Complex>, b0: seq<Complex>, indx: seq<int>, n: int, i: int, st: Forward)
    requires 1 <= i <= n < a.Length0 && n < a.Length1 && n < |b0| && PivotRows(indx, n)
    requires 0 <= st.first < i && ForwardDone(a, b0, indx, n, i - 1, st)
    ensures ForwardDone(a, b0, indx, n, i, ForwardStep(a, st, indx, i))
  {
    var y := ForwardStep(a, st, indx, i).x;
    var prev := Permuted(b0, indx, i - 1);
    assert Permuted(b0, indx, i) == Swap(prev, i, indx[i]);
    assert st.x[indx[i]] == prev[indx[i]] && st.x[i] == prev[i];
    assert forall k :: 1 <= k <= i ==> LowerRow(a, y, k) == Permuted(b0, indx, n)[k] by {
      ForwardStepRow(a, st, indx, i);
      PermutedStable(b0, indx, i, n);
      ForwardStepKeeps(a, st, indx, i);
      forall k | 1 <= k < i
        ensures LowerRow(a, y, k) == Permuted(b0, indx, n)[k]
      {
        assert LowerRow(a, y, k) == LowerRow(a, st.x, k);
      }
    }
    assert forall k :: i < k < |b0| ==> y[k] == Permuted(b0, indx, i)[k] by {
      ForwardStepKeeps(a, st, indx, i);
      forall k | i < k < |b0|
        ensures y[k] == Permuted(b0, indx, i)[k]
      {
        assert y[k] == Swap(st.x, i, indx[i])[k];
      }
    }
    assert y[0] == b0[0] by {
      ForwardStepKeeps(a, st, indx, i);
      assert y[0] == Swap(st.x, i, indx[i])[0];
    }
    ForwardStepZeros(a, st, indx, i);
  }

  /** Step i solves row i: x[i] plus row i of L applied to x[1..i - 1]
      equals the right-hand side taken from position indx[i]. */
  lemma ForwardStepRow(a: array2<Complex>, st: Forward, indx: seq<int>, i: int)
    requires 1 <= i < a.Length0 && i <= a.Length1 && i < |st.x| && i < |indx| && i <= indx[i] < |st.x|
    requires 0 <= st.first < i && LeadingZeros(st, i - 1)
    ensures LowerRow(a, ForwardStep(a, st, indx, i).x, i) == st.x[indx[i]]
  {
    var ip := indx[i];
    var x1 := st.x[ip := st.x[i]];
    var rhs := st.x[ip];
    var y := ForwardStep(a, st, indx, i).x;
    if st.first != 0 {
      DotSkipZeros(a, i, x1, 1, st.first, i);
      RowSubDot(a, i, x1, st.first, i, rhs);
      DotFrame(a, i, x1, y, 1, i);
    } else {
      DotSkipZeros(a, i, y, 1, i, i);

    }
  }

  /** Step i leaves rows 1..i - 1 solved, moves only positions i and
      indx[i], and keeps the leading zeros marked. */
  lemma ForwardStepKeeps(a: array2<Complex>, st: Forward, indx: seq<int>, i: int)
    requires 1 <= i < a.Length0 && i <= a.Length1 && i < |st.x| && i < |indx| && i <= indx[i] < |st.x|
    requires 0 <= st.first < i && LeadingZeros(st, i - 1)
    ensures forall k :: 1 <= k < i ==> LowerRow(a, ForwardStep(a, st, indx, i).x, k) == LowerRow(a, st.x, k)
    ensures forall k :: 0 <= k < |st.x| && k != i ==> ForwardStep(a, st, indx, i).x[k] == Swap(st.x, i, indx[i])[k]
  {
    var y := ForwardStep(a, st, indx, i).x;
    forall k | 1 <= k < i
      ensures LowerRow(a, y, k) == LowerRow(a, st.x, k)
    {
      DotFrame(a, k, y, st.x, 1, k);
    }
  }

  /** Step i keeps the leading zeros marked: `first` stays 0 while the
      entries so far are zero, and otherwise points past them. */
  lemma ForwardStepZeros(a: array2<Complex>, st: Forward, indx: seq<int>, i: int)
    requires 1 <= i < a.Length0 && i <= a.Length1 && i < |st.x| && i < |indx| && i <= indx[i] < |st.x|
    requires 0 <= st.first < i && LeadingZeros(st, i - 1)
    ensures LeadingZeros(ForwardStep(a, st, indx, i), i)
  {
  }

  /** `lubksb`: solves L U x = P b in place in b, with L, U and P the
      factors left by `ludcmp` in a and indx; the intermediate solution of
      L y = P b is returned as a ghost value. */
  method LuBackSubstitute(a: array2<Complex>, n: int, indx: array<int>, b: array<Complex>) returns (ghost y: seq<Complex>)
    requires 0 <= n < a.Length0 && n < a.Length1 && n < b.Length
    requires PivotRows(indx[..], n)
    requires forall i :: 1 <= i <= n ==> a[i, i] != Zero
    modifies b
    ensures |y| == b.Length
    ensures LowerSolves(a, n, Permuted(old(b[..]), indx[..], n), y)
    ensures UpperSolves(a, n, y, b[..])
    ensures b[0] == old(b[0])
  {
    ghost var b0 := b[..];
    ForwardSubstitute(a, n, indx, b);
    y := b[..];
    ForwardPassSolves(a, b0, indx[..], n, n);
    assert LowerSolves(a, n, Permuted(b0, indx[..], n), y);
    BackSubstitute(a, n, b);
    BackPassSolves(a, y, n, n);
  }

  /** The first loop of `lubksb`. */
  method ForwardSubstitute(a: array2<Complex>, n: int, indx: array<int>, b: array<Complex>)
    requires 0 <= n < a.Length0 && n < a.Length1 && n < b.Length
    requires PivotRows(indx[..], n)
    modifies b
    ensures b[..] == ForwardPass(a, old(b[..]), indx[..], n, n).x
  {
    ghost var b0 := b[..];
    var ii := 0;
    var i := 1;
    while i <= n
      invariant 1 <= i <= n + 1
      invariant Forward(b[..], ii) == ForwardPass(a, b0, indx[..], n, i - 1)
    {
      ii := ForwardRow(a, indx, i, ii, b);
      i := i + 1;
    }
  }

  /** One pass of the first loop of `lubksb`: row i of L y = P b. */
  method ForwardRow(a: array2<Complex>, indx: array<int>, i: int, ii: int, b: array<Complex>) returns (ii': int)
    requires 1 <= i < a.Length0 && i <= a.Length1 && i < b.Length && i < indx.Length && i <= indx[i] < b.Length
    requires 0 <= ii < i
    modifies b
    ensures Forward(b[..], ii') == ForwardStep(a, Forward(old(b[..]), ii), indx[..], i)
  {
    ghost var prev := b[..];
    var ip := indx[i];
    var sum := b[ip];
    b[ip] := b[i];
    assert b[..] == prev[ip := prev[i]];
    ii' := ii;
    if ii != 0 {
      sum := SubtractRow(a, i, b, ii, i, sum);
    } else if sum != Zero {
      ii' := i;
    }
    b[i] := sum;
  }

  /** The backward pass of `lubksb` after the last m rows: row r = n, n - 1,
      ..., n - m + 1 becomes (x[r] - sum_{k > r} a[r][k] * x[k]) / a[r][r]. */
  ghost function BackPass(a: array2<Complex>, y: seq<Complex>, n: int, m: int): (x: seq<Complex>)
    requires 0 <= m <= n < a.Length0 && n < a.Length1 && n < |y|
    requires forall i :: 1 <= i <= n ==> a[i, i] != Zero
    reads a
    ensures |x| == |y|
    decreases m
  {
    if m == 0 then y
    else
      var x := BackPass(a, y, n, m - 1);
      var r := n - m + 1;
      x[r := Div(RowSub(a, r, x, r + 1, n + 1, x[r]), a[r, r])]
  }

  /** What the backward pass achieves after m rows: those rows of U x = y
      hold and the other entries are still those of y. */
  lemma {:induction false} BackPassSolves(a: array2<Complex>, y: seq<Complex>, n: int, m: int)
    requires 0 <= m <= n < a.Length0 && n < a.Length1 && n < |y|
    requires forall i :: 1 <= i <= n ==> a[i, i] != Zero
    ensures forall k :: n - m < k <= n ==> UpperRow(a, n, BackPass(a, y, n, m), k) == y[k]
    ensures forall k :: 0 <= k < |y| && (k <= n - m || k > n) ==> BackPass(a, y, n, m)[k] == y[k]
    decreases m
  {
    if m > 0 {
      BackPassSolves(a, y, n, m - 1);
      BackStepSolves(a, BackPass(a, y, n, m - 1), n, n - m + 1);
    }
  }

  /** Row r of the backward pass solves row r of U x = y and leaves the
      rows below it solved. */
  lemma BackStepSolves(a: array2<Complex>, x: seq<Complex>, n: int, r: int)
    requires 1 <= r <= n < a.Length0 && n < a.Length1 && n < |x| && a[r, r] != Zero
    ensures UpperRow(a, n, x[r := Div(RowSub(a, r, x, r + 1, n + 1, x[r]), a[r, r])], r) == x[r]
    ensures forall k :: r < k <= n ==>
      UpperRow(a, n, x[r := Div(RowSub(a, r, x, r + 1, n + 1, x[r]), a[r, r])], k) == UpperRow(a, n, x, k)
  {
    var x' := x[r := Div(RowSub(a, r, x, r + 1, n + 1, x[r]), a[r, r])];
    RowSubDot(a, r, x, r + 1, n + 1, x[r]);
    DotFrame(a, r, x, x', r + 1, n + 1);
    forall k | r < k <= n
      ensures UpperRow(a, n, x', k) == UpperRow(a, n, x, k)
    {
      DotFrame(a, k, x, x', k + 1, n + 1);
    }
  }

  /** The second loop of `lubksb`. */
  method BackSubstitute(a: array2<Complex>, n: int, b: array<Complex>)
    requires 0 <= n < a.Length0 && n < a.Length1 && n < b.Length
    requires forall i :: 1 <= i <= n ==> a[i, i] != Zero
    modifies b
    ensures b[..] == BackPass(a, old(b[..]), n, n)
  {
    ghost var y := b[..];
    var i := n;
    while i >= 1
      invariant 0 <= i <= n
      invariant b[..] == BackPass(a, y, n, n - i)
    {
      var sum := SubtractRow(a, i, b, i + 1, n + 1, b[i]);
      b[i] := Div(sum, a[i, i]);
      i := i - 1;
    }
  }

  /** The inner loops of `lubksb`: s minus a[i][k] * b[k] for lo <= k < hi. */
  method SubtractRow(a: array2<Complex>, i: int, b: array<Complex>, lo: int, hi: int, s: Complex) returns (sum: Complex)
    requires 0 <= i < a.Length0 && 0 <= lo <= hi <= b.Length && hi <= a.Length1
    ensures sum == RowSub(a, i, b[..], lo, hi, s)
  {
    sum := s;
    var j := lo;
    while j < hi
      invariant lo <= j <= hi
      invariant sum == RowSub(a, i, b[..], lo, j, s)
    {
      sum := Sub(sum, Mul(a[i, j], b[j]));
      j := j + 1;
    }
  }

  // ---- InverseMatrix ----

  /** The j-th unit vector of order n, indexed from 1 (entry 0 is zero). */
  function Unit(n: nat, j: int): (e: seq<Complex>)
    ensures |e| == n + 1
    ensures forall k :: 0 <= k <= n ==> (e[k] == One <==> k == j) && (e[k] == Zero <==> k != j)
  {
    seq(n + 1, k => if k == j then One else Zero)
  }

  /** x solves L U x = P e_j through the intermediate w, with L, U held in
      a and P the row exchanges recorded in indx. */
  ghost predicate SolvesUnit(a: array2<Complex>, n: nat, indx: seq<int>, j: int, w: seq<Complex>, x: seq<Complex>)
    requires n < a.Length0 && n < a.Length1 && PivotRows(indx, n)
    reads a
  {
    |w| == n + 1 && |x| == n + 1
    && LowerSolves(a, n, Permuted(Unit(n, j), indx, n), w)
    && UpperSolves(a, n, w, x)
  }

  /** Column j of y holds x[1..n]. */
  ghost predicate ColumnIs(y: array2<Complex>, n: nat, j: int, x: seq<Complex>)
    requires n < y.Length0 && 0 <= j < y.Length1
    reads y
  {
    |x| == n + 1 && forall r :: 1 <= r <= n ==> y[r, j] == x[r]
  }

  /** Columns 1..j - 1 have been solved. */
  ghost predicate SolvedBefore(a: array2<Complex>, n: nat, indx: seq<int>, ws: map<int, seq<Complex>>, cols: map<int, seq<Complex>>, j: int)
    requires n < a.Length0 && n < a.Length1 && PivotRows(indx, n)
    reads a
  {
    forall c :: 1 <= c < j ==> c in ws && c in cols && SolvesUnit(a, n, indx, c, ws[c], cols[c])
  }

  lemma SolvedBeforeExtend(a: array2<Complex>, n: nat, indx: seq<int>, ws: map<int, seq<Complex>>, cols: map<int, seq<Complex>>,
                           j: int, w: seq<Complex>, x: seq<Complex>)
    requires n < a.Length0 && n < a.Length1 && PivotRows(indx, n)
    requires SolvedBefore(a, n, indx, ws, cols, j) && SolvesUnit(a, n, indx, j, w, x)
    ensures SolvedBefore(a, n, indx, ws[j := w], cols[j := x], j + 1)
  {
  }

  /** `InverseMatrix`: factors a in place with `ludcmp` and, when that
      succeeds, solves for each unit vector e_j and stores the solution as
      column j of y. The columns and the intermediate solutions are
      returned as ghost values, keyed by j. */
  method InverseMatrix(a: array2<Complex>, y: array2<Complex>, n: nat)
    returns (ok: bool, ghost perm: seq<int>, ghost ws: map<int, seq<Complex>>, ghost cols: map<int, seq<Complex>>)
    requires n < a.Length0 && n < a.Length1 && n < y.Length0 && n < y.Length1
    requires a != y
    modifies a, y
    ensures !ok <==> old(HasZeroRow(a, n))
    ensures !ok ==> unchanged(a) && unchanged(y)
    ensures ok ==> PivotRows(perm, n) && forall j :: 1 <= j <= n ==> j <= perm[j] && a[j, j] != Zero
    ensures ok ==> SolvedBefore(a, n, perm, ws, cols, n + 1)
    ensures ok ==> forall j :: 1 <= j <= n ==> j in cols && ColumnIs(y, n, j, cols[j])
    ensures forall r, c :: 0 <= r < y.Length0 && 0 <= c < y.Length1 && (r == 0 || c == 0 || r > n || c > n) ==>
      y[r, c] == old(y[r, c])
  {
    var indx := new int[n + 1];
    ok := LuDecompose(a, n, indx);
    perm := indx[..];
    if !ok {
      ws, cols := map[], map[];
      return;
    }
    ws, cols := SolveColumns(a, y, n, indx);
  }

  /** The column loop of `InverseMatrix`, once `ludcmp` has succeeded. */
  method SolveColumns(a: array2<Complex>, y: array2<Complex>, n: nat, indx: array<int>)
    returns (ghost ws: map<int, seq<Complex>>, ghost cols: map<int, seq<Complex>>)
    requires n < a.Length0 && n < a.Length1 && n < y.Length0 && n < y.Length1
    requires PivotRows(indx[..], n) && forall k :: 1 <= k <= n ==> a[k, k] != Zero
    requires a != y
    modifies y
    ensures SolvedBefore(a, n, indx[..], ws, cols, n + 1)
    ensures forall j :: 1 <= j <= n ==> j in cols && ColumnIs(y, n, j, cols[j])
    ensures forall r, c :: 0 <= r < y.Length0 && 0 <= c < y.Length1 && (r == 0 || c == 0 || r > n || c > n) ==>
      y[r, c] == old(y[r, c])
  {
    ws, cols := map[], map[];
    var col := new Complex[n + 1](_ => Zero);
    var j := 1;
    while j <= n
      modifies col, y
      invariant 1 <= j <= n + 1
      invariant col[0] == Zero
      invariant SolvedBefore(a, n, indx[..], ws, cols, j)
      invariant forall c :: 1 <= c < j ==> c in cols && ColumnIs(y, n, c, cols[c])
      invariant forall r, c :: 0 <= r < y.Length0 && 0 <= c < y.Length1 && (r == 0 || c == 0 || r > n || c >= j) ==>
        y[r, c] == old(y[r, c])
    {
      ghost var w := SolveUnit(a, n, indx, col, j);
      label Stored:
      StoreColumn(y, col, n, j);
      forall c | 1 <= c < j
        ensures ColumnIs(y, n, c, cols[c])
      {
        assert old@Stored(ColumnIs(y, n, c, cols[c]));
        assert forall r :: 1 <= r <= n ==> y[r, c] == old@Stored(y[r, c]);
      }
      SolvedBeforeExtend(a, n, indx[..], ws, cols, j, w, col[..]);
      ws, cols := ws[j := w], cols[j := col[..]];
      j := j + 1;
    }
  }

  /** One column of `InverseMatrix`: col is set to e_j and solved in place. */
  method SolveUnit(a: array2<Complex>, n: nat, indx: array<int>, col: array<Complex>, j: int) returns (ghost w: seq<Complex>)
    requires n < a.Length0 && n < a.Length1 && col.Length == n + 1 && 1 <= j <= n
    requires PivotRows(indx[..], n) && forall k :: 1 <= k <= n ==> a[k, k] != Zero
    requires col[0] == Zero
    modifies col
    ensures SolvesUnit(a, n, indx[..], j, w, col[..]) && col[0] == Zero
  {
    var i := 1;
    while i <= n
      invariant 1 <= i <= n + 1 && col[0] == Zero
      invariant forall k :: 1 <= k < i ==> col[k] == Zero
    {
      col[i] := Zero;
      i := i + 1;
    }
    col[j] := One;
    assert col[..] == Unit(n, j);
    w := LuBackSubstitute(a, n, indx, col);
  }

  /** The copy loop of `InverseMatrix`: column j of y becomes col[1..n]. */
  method StoreColumn(y: array2<Complex>, col: array<Complex>, n: nat, j: int)
    requires n < y.Length0 && n < y.Length1 && col.Length == n + 1 && 1 <= j <= n
    modifies y
    ensures ColumnIs(y, n, j, col[..])
    ensures forall r, c :: 0 <= r < y.Length0 && 0 <= c < y.Length1 && (c != j || r == 0 || r > n) ==>
      y[r, c] == old(y[r, c])
  {
    var i := 1;
    while i <= n
      invariant 1 <= i <= n + 1
      invariant forall r :: 1 <= r < i ==> y[r, j] == col[r]
      invariant forall r, c :: 0 <= r < y.Length0 && 0 <= c < y.Length1 && (c != j || r == 0 || r >= i) ==>
        y[r, c] == old(y[r, c])
    {
      y[i, j] := col[i];
      i := i + 1;
    }
  }
}
