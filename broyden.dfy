/** The modified Broyden mixing engine of class `Broyden`: history tables of
    normalised secant steps, their Gram matrix, the regularised inverse of
    that matrix and the correction it yields, with the lifecycle that
    allocates and zeroes the tables. Complex numbers are exact pairs of
    reals; the square root used to normalise a secant step is a parameter
    that never returns zero; moduli are compared through their squares. */
module BroydenMixing {
  import opened ComplexNumbers
  import opened LuSolver

  /** What the square root used by `add_Ds` may return: any nonzero value. */
  type NonZero = z: Complex | z != Zero witness One

  // ---- Vectors and the inner product of `Multiply` ----

  /** Row p of a table, as a vector. */
  function Row(M: array2<Complex>, p: int): (r: seq<Complex>)
    requires 0 <= p < M.Length0
    reads M
    ensures |r| == M.Length1 && forall j :: 0 <= j < |r| ==> r[j] == M[p, j]
  {
    seq(M.Length1, j requires 0 <= j < M.Length1 reads M => M[p, j])
  }

  /** The entrywise difference x - y. */
  function Diff(x: seq<Complex>, y: seq<Complex>): (r: seq<Complex>)
    requires |x| == |y|
    ensures |r| == |x| && forall j :: 0 <= j < |r| ==> r[j] == Sub(x[j], y[j])
  {
    seq(|x|, j requires 0 <= j < |x| => Sub(x[j], y[j]))
  }

  /** sum_{m < n} a[m] * conj(b[m]): the value `Multiply` accumulates. */
  ghost function Inner(a: seq<Complex>, b: seq<Complex>, n: int): Complex
    requires 0 <= n <= |a| && n <= |b|
    decreases n
  {
    if n == 0 then Zero else Add(Inner(a, b, n - 1), Mul(a[n - 1], Conj(b[n - 1])))
  }

  /** Exchanging the arguments conjugates the product. */
  lemma {:induction false} InnerConjSym(a: seq<Complex>, b: seq<Complex>, n: int)
    requires 0 <= n <= |a| && n <= |b|
    ensures Inner(b, a, n) == Conj(Inner(a, b, n))
    decreases n
  {
    if n > 0 {
      InnerConjSym(a, b, n - 1);
      ConjMulConj(a[n - 1], b[n - 1]);
    }
  }

  /** sum_{m < n} |a[m]|^2. */
  ghost function SumNormSq(a: seq<Complex>, n: int): real
    requires 0 <= n <= |a|
    decreases n
  {
    if n == 0 then 0.0 else SumNormSq(a, n - 1) + NormSq(a[n - 1])
  }

  lemma {:induction false} InnerSelfSum(a: seq<Complex>, n: int)
    requires 0 <= n <= |a|
    ensures Inner(a, a, n) == FromReal(SumNormSq(a, n))
    decreases n
  {
    if n > 0 {
      InnerSelfSum(a, n - 1);
      MulConjSelf(a[n - 1]);
    }
  }

  lemma {:induction false} SumNormSqZero(a: seq<Complex>, n: int)
    requires 0 <= n <= |a|
    ensures SumNormSq(a, n) >= 0.0
    ensures SumNormSq(a, n) == 0.0 <==> forall m :: 0 <= m < n ==> a[m] == Zero
    decreases n
  {
    if n > 0 {
      SumNormSqZero(a, n - 1);
      NormSqSign(a[n - 1]);
    }
  }

  /** The product of a vector with itself is a nonnegative real (so its own
      conjugate), zero exactly when the vector is. */
  lemma InnerSelf(a: seq<Complex>, n: int)
    requires 0 <= n <= |a|
    ensures Inner(a, a, n).im == 0.0 && Inner(a, a, n).re >= 0.0
    ensures Conj(Inner(a, a, n)) == Inner(a, a, n)
    ensures Inner(a, a, n) == Zero <==> forall m :: 0 <= m < n ==> a[m] == Zero
  {
    InnerSelfSum(a, n);
    SumNormSqZero(a, n);
  }

  /** The unconjugated sum of squares sum_{m < n} d[m] * d[m], whose square
      root normalises a secant step in `add_Ds`. */
  ghost function SquareSum(d: seq<Complex>, n: int): Complex
    requires 0 <= n <= |d|
    decreases n
  {
    if n == 0 then Zero else Add(SquareSum(d, n - 1), Mul(d[n - 1], d[n - 1]))
  }

  /** d divided entrywise by s. */
  function Normalise(d: seq<Complex>, s: NonZero): (r: seq<Complex>)
    ensures |r| == |d|
  {
    seq(|d|, j requires 0 <= j < |d| => Div(d[j], s))
  }

  /** Multiplying each entry of Normalise(d, s) back by s restores d, and an
      entry vanishes exactly when the entry of d does. */
  lemma NormaliseInverts(d: seq<Complex>, s: NonZero)
    ensures forall j :: 0 <= j < |d| ==> Mul(s, Normalise(d, s)[j]) == d[j] && (Normalise(d, s)[j] == Zero <==> d[j] == Zero)
  {
  }

  // ---- The Gram matrix and its regularisation ----

  /** M equals its conjugate transpose. */
  ghost predicate Hermitian(M: array2<Complex>)
    reads M
  {
    M.Length0 == M.Length1 &&
    forall i, j :: 0 <= i < M.Length0 && 0 <= j < M.Length0 ==> M[i, j] == Conj(M[j, i])
  }

  /** Entry (i, j) of the matrix `get_Betas` inverts: A plus omega0^2 on
      the diagonal. */
  ghost function Regularised(A: array2<Complex>, omega0: real, i: int, j: int): Complex
    requires 0 <= i < A.Length0 && 0 <= j < A.Length1
    reads A
  {
    Add(FromReal(if i - j == 0 then Times(omega0, omega0) else 0.0), A[i, j])
  }

  /** Some row of the regularised matrix of order n is all zero. */
  ghost predicate RegularisedZeroRow(A: array2<Complex>, omega0: real, n: int)
    requires n < A.Length0 && n < A.Length1
    reads A
  {
    exists i :: 1 <= i <= n && RegularisedRowZero(A, omega0, n, i)
  }

  /** Row i of the regularised matrix of order n is all zero. */
  ghost predicate RegularisedRowZero(A: array2<Complex>, omega0: real, n: int, i: int)
    requires n < A.Length0 && n < A.Length1 && 0 <= i <= n
    reads A
  {
    forall j :: 1 <= j <= n ==> Regularised(A, omega0, i, j) == Zero
  }

  /** The regularised matrix is Hermitian when A is. */
  lemma RegularisedHermitian(A: array2<Complex>, omega0: real, i: int, j: int)
    requires Hermitian(A) && 0 <= i < A.Length0 && 0 <= j < A.Length0
    ensures Regularised(A, omega0, i, j) == Conj(Regularised(A, omega0, j, i))
  {
    assert A[i, j] == Conj(A[j, i]);
  }

  /** t[1..n][1..n] holds the regularised matrix of order n. */
  ghost predicate RegularisedCopy(t: array2<Complex>, A: array2<Complex>, omega0: real, n: int)
    requires n < t.Length0 && n < t.Length1 && n < A.Length0 && n < A.Length1
    reads t, A
  {
    forall p, q :: 1 <= p <= n && 1 <= q <= n ==> t[p, q] == Regularised(A, omega0, p, q)
  }

  /** A copy of the regularised matrix has a zero row, the failure of the
      decomposition, exactly when the regularised matrix has one. */
  lemma RegularisedSingular(t: array2<Complex>, A: array2<Complex>, omega0: real, n: int)
    requires 0 <= n < t.Length0 && n < t.Length1 && n < A.Length0 && n < A.Length1
    requires RegularisedCopy(t, A, omega0, n)
    ensures HasZeroRow(t, n) <==> RegularisedZeroRow(A, omega0, n)
  {
    if HasZeroRow(t, n) {
      var p :| 1 <= p <= n && ZeroRow(t, n, p);
      assert RegularisedRowZero(A, omega0, n, p);
    }
    if RegularisedZeroRow(A, omega0, n) {
      var p :| 1 <= p <= n && RegularisedRowZero(A, omega0, n, p);
      assert ZeroRow(t, n, p);
    }
  }

  // ---- The correction term ----

  /** sum_{k = 1..kk} c[k] * Beta[k][n] * U[n][i]: the inner loop of `CorrTerm`. */
  ghost function CorrRow(c: seq<Complex>, Beta: array2<Complex>, U: array2<Complex>, n: int, kk: int, i: int): Complex
    requires 0 <= n < Beta.Length1 && n < U.Length0 && 0 <= i < U.Length1
    requires 0 <= kk < |c| && kk < Beta.Length0
    reads Beta, U
    decreases kk
  {
    if kk == 0 then Zero
    else Add(CorrRow(c, Beta, U, n, kk - 1, i), Mul(Mul(c[kk], Beta[kk, n]), U[n, i]))
  }

  /** sum_{n = 1..nn} sum_{k = 1..m} c[k] * Beta[k][n] * U[n][i]. */
  ghost function CorrSum(c: seq<Complex>, Beta: array2<Complex>, U: array2<Complex>, m: int, nn: int, i: int): Complex
    requires 0 <= nn <= m < |c| && m < Beta.Length0 && m < Beta.Length1 && m < U.Length0 && 0 <= i < U.Length1
    reads Beta, U
    decreases nn
  {
    if nn == 0 then Zero
    else Add(CorrSum(c, Beta, U, m, nn - 1, i), CorrRow(c, Beta, U, nn, m, i))
  }

  /** The correction of component i with a history of m steps. */
  ghost function Correction(c: seq<Complex>, Beta: array2<Complex>, U: array2<Complex>, m: int, i: int): Complex
    requires 0 <= m < |c| && m < Beta.Length0 && m < Beta.Length1 && m < U.Length0 && 0 <= i < U.Length1
    reads Beta, U
  {
    CorrSum(c, Beta, U, m, m, i)
  }

  lemma {:induction false} CorrRowVanishes(c: seq<Complex>, Beta: array2<Complex>, U: array2<Complex>, n: int, kk: int, i: int)
    requires 0 <= n < Beta.Length1 && n < U.Length0 && 0 <= i < U.Length1
    requires 0 <= kk < |c| && kk < Beta.Length0
    requires forall k :: 1 <= k <= kk ==> c[k] == Zero
    ensures CorrRow(c, Beta, U, n, kk, i) == Zero
    decreases kk
  {
    if kk > 0 {
      CorrRowVanishes(c, Beta, U, n, kk - 1, i);
      MulZero(Beta[kk, n]);
      MulZero(U[n, i]);
    }
  }

  /** When every coefficient c[k] is zero (the residual is orthogonal to
      every stored secant step) there is no correction. */
  lemma {:induction false} CorrectionVanishes(c: seq<Complex>, Beta: array2<Complex>, U: array2<Complex>, m: int, nn: int, i: int)
    requires 0 <= nn <= m < |c| && m < Beta.Length0 && m < Beta.Length1 && m < U.Length0 && 0 <= i < U.Length1
    requires forall k :: 1 <= k <= m ==> c[k] == Zero
    ensures CorrSum(c, Beta, U, m, nn, i) == Zero
    decreases nn
  {
    if nn > 0 {
      CorrectionVanishes(c, Beta, U, m, nn - 1, i);
      CorrRowVanishes(c, Beta, U, nn, m, i);
    }
  }

  // ---- The convergence test ----

  /** m is the largest squared change |x[i] - y[i]|^2 over i < n, or zero
      when there is none. */
  ghost predicate IsLargestChange(x: seq<Complex>, y: seq<Complex>, n: int, m: real)
    requires 0 <= n <= |x| && n <= |y|
  {
    && m >= 0.0
    && (forall i :: 0 <= i < n ==> NormSq(Sub(x[i], y[i])) <= m)
    && (m == 0.0 || exists i :: 0 <= i < n && m == NormSq(Sub(x[i], y[i])))
  }


  /** The test `MaxDiff < Accr` on the square m of MaxDiff. */
  function Converged(m: real, accr: real): bool
  {
    0.0 < accr && m < Times(accr, accr)
  }

  /** For any nonnegative d whose square is m, the test on m agrees with
      d < accr. */
  lemma ConvergedMeansBelow(m: real, accr: real, d: real)
    requires d >= 0.0 && Times(d, d) == m
    ensures Converged(m, accr) <==> d < accr
  {
    SquareCompare(d, accr);
  }

  /** With m the largest squared change, the test holds exactly when every
      component moved by less than accr. */
  lemma ConvergedIffAllSmall(x: seq<Complex>, y: seq<Complex>, n: int, m: real, accr: real)
    requires 0 <= n <= |x| && n <= |y| && IsLargestChange(x, y, n, m)
    ensures Converged(m, accr) <==> 0.0 < accr && forall i :: 0 <= i < n ==> NormSq(Sub(x[i], y[i])) < Times(accr, accr)
  {
    if 0.0 < accr {
      SquareSign(accr);
    }
  }

  /** On a first step the input moves by the whole residual and the mixed
      vector is the new input itself. */
  lemma FirstStepIdentity(v: Complex, vnew: Complex)
    ensures Sub(Add(v, Mul(FromReal(1.0), Sub(vnew, v))), Zero) == vnew
  {
    MulOne(Sub(vnew, v));
  }

  // ---- Tables ----

  ghost predicate ZeroVector(v: array<Complex>)
    reads v
  {
    forall i :: 0 <= i < v.Length ==> v[i] == Zero
  }

  ghost predicate ZeroTable(M: array2<Complex>)
    reads M
  {
    forall i, j :: 0 <= i < M.Length0 && 0 <= j < M.Length1 ==> M[i, j] == Zero
  }

  /** Rows 0..r-1 of M are zero. */
  ghost predicate ZeroRowsBelow(M: array2<Complex>, r: int)
    reads M
  {
    forall p, q :: 0 <= p < r && p < M.Length0 && 0 <= q < M.Length1 ==> M[p, q] == Zero
  }

  /** Sets row r of M to zero and leaves the other rows alone. */
  method ClearRow(M: array2<Complex>, r: int)
    requires 0 <= r < M.Length0
    modifies M
    ensures forall q :: 0 <= q < M.Length1 ==> M[r, q] == Zero
    ensures forall p, q :: 0 <= p < M.Length0 && p != r && 0 <= q < M.Length1 ==> M[p, q] == old(M[p, q])
  {
    var j := 0;
    while j < M.Length1
      invariant 0 <= j <= M.Length1
      invariant forall q :: 0 <= q < j ==> M[r, q] == Zero
      invariant forall p, q :: 0 <= p < M.Length0 && p != r && 0 <= q < M.Length1 ==> M[p, q] == old(M[p, q])
    {
      M[r, j] := Zero;
      j := j + 1;
    }
  }

  /** The zero table is Hermitian. */
  lemma ZeroHermitian(M: array2<Complex>)
    requires ZeroTable(M) && M.Length0 == M.Length1
    ensures Hermitian(M)
  {
  }

  // ---- The engine ----

  class Broyden {
    /** Number of components of the vector being mixed. */
    const N: nat
    /** Capacity of the history tables, in iterations. */
    const MAX_ITS: nat
    /** Mixing parameter applied to the residual. */
    const alpha: real
    /** Regularisation added to the diagonal of the Gram matrix, squared. */
    const omega0: real
    /** Convergence threshold on the largest component change. */
    const Accr: real
    /** The complex square root used to normalise a secant step. */
    const Root: Complex -> NonZero

    var Initialized: bool
    /** The iteration at which the history was last cleared. */
    var LastReset: int
    /** The square of the largest component change of the last later step. */
    var CurrentDiff: real

    /** The current input V, its previous value, and the residuals. */
    const V: array<Complex>
    const Vold: array<Complex>
    const F: array<Complex>
    const Fold: array<Complex>
    /** The coefficients c[k] = <F, DF[k]>. */
    const c: array<Complex>
    /** The normalised secant steps and the update directions, one row per iteration. */
    const DV: array2<Complex>
    const DF: array2<Complex>
    const U: array2<Complex>
    /** The Gram matrix of the DF rows and the inverse of its regularisation. */
    const A: array2<Complex>
    const Beta: array2<Complex>

    /** The tables have their sizes and are pairwise distinct. */
    ghost predicate Shaped()
    {
      && V.Length == N && Vold.Length == N && F.Length == N && Fold.Length == N && c.Length == MAX_ITS
      && DV.Length0 == MAX_ITS && DV.Length1 == N && DF.Length0 == MAX_ITS && DF.Length1 == N
      && U.Length0 == MAX_ITS && U.Length1 == N
      && A.Length0 == MAX_ITS && A.Length1 == MAX_ITS && Beta.Length0 == MAX_ITS && Beta.Length1 == MAX_ITS
      && V != Vold && V != F && V != Fold && V != c && Vold != F && Vold != Fold && Vold != c
      && F != Fold && F != c && Fold != c
      && DV != DF && DV != U && DV != A && DV != Beta && DF != U && DF != A && DF != Beta
      && U != A && U != Beta && A != Beta
    }

    /** The tables are in shape and, while turned on, A is Hermitian. */
    ghost predicate Valid()
      reads this, A
    {
      Shaped() && (Initialized ==> Hermitian(A))
    }

    /** Every entry of every table is zero. */
    ghost predicate Zeroed()
      reads V, Vold, F, Fold, c, DV, DF, U, A, Beta
    {
      && ZeroVector(V) && ZeroVector(Vold) && ZeroVector(F) && ZeroVector(Fold) && ZeroVector(c)
      && ZeroTable(DV) && ZeroTable(DF) && ZeroTable(U) && ZeroTable(A) && ZeroTable(Beta)
    }

    /** The default constructor followed by `SetParameters`; the tables are
        allocated here, once, at their sizes. */
    constructor (n: nat, maxIts: nat, alpha: real, omega0: real, accr: real, root: Complex -> NonZero)
      ensures !Initialized && Valid()
      ensures N == n && MAX_ITS == maxIts && this.alpha == alpha && this.omega0 == omega0 && Accr == accr && Root == root
    {
      N, MAX_ITS := n, maxIts;
      this.alpha, this.omega0, Accr := alpha, omega0, accr;
      Root := root;
      Initialized := false;
      LastReset, CurrentDiff := 0, 0.0;
      V, Vold := new Complex[n](_ => Zero), new Complex[n](_ => Zero);
      F, Fold := new Complex[n](_ => Zero), new Complex[n](_ => Zero);
      c := new Complex[maxIts](_ => Zero);
      DV, DF := new Complex[maxIts, n]((_, _) => Zero), new Complex[maxIts, n]((_, _) => Zero);
      U := new Complex[maxIts, n]((_, _) => Zero);
      A, Beta := new Complex[maxIts, maxIts]((_, _) => Zero), new Complex[maxIts, maxIts]((_, _) => Zero);
    }

    /** Sets every entry of every table to zero. */
    method PrepareArrays()
      requires Shaped()
      modifies V, Vold, F, Fold, c, DV, DF, U, A, Beta
      ensures Zeroed()
    {
      var j := 0;
      while j < N
        invariant 0 <= j <= N
        invariant forall q :: 0 <= q < j ==> V[q] == Zero && Vold[q] == Zero && F[q] == Zero && Fold[q] == Zero
        invariant unchanged(c, DV, DF, U, A, Beta)
      {
        V[j], Vold[j], F[j], Fold[j] := Zero, Zero, Zero, Zero;
        j := j + 1;
      }
      var it := 0;
      while it < MAX_ITS
        invariant 0 <= it <= MAX_ITS
        invariant ZeroVector(V) && ZeroVector(Vold) && ZeroVector(F) && ZeroVector(Fold)
        invariant forall q :: 0 <= q < it ==> c[q] == Zero
        invariant ZeroRowsBelow(A, it) && ZeroRowsBelow(Beta, it)
        invariant ZeroRowsBelow(DV, it) && ZeroRowsBelow(DF, it) && ZeroRowsBelow(U, it)
      {
        c[it] := Zero;
        ClearRow(A, it);
        ClearRow(Beta, it);
        ClearRow(DV, it);
        ClearRow(DF, it);
        ClearRow(U, it);
        it := it + 1;
      }
    }

    /** Turns the engine on at iteration `it`; an engine already on is a
        misuse, reported as `false` with nothing changed. */
    method TurnOn(it: int) returns (ok: bool)
      requires Valid()
      modifies this, V, Vold, F, Fold, c, DV, DF, U, A, Beta
      ensures Valid()
      ensures ok <==> !old(Initialized)
      ensures !ok ==> unchanged(this) && unchanged(V, Vold, F, Fold, c, DV, DF, U, A, Beta)
      ensures ok ==> Initialized && LastReset == it && CurrentDiff == old(CurrentDiff) && Zeroed()
    {
      if Initialized {
        return false;
      }
      LastReset := it;
      PrepareArrays();
      Initialized := true;
      ZeroHermitian(A);
      ok := true;
    }

    /** Turns the engine off; an engine already off is a misuse, reported
        as `false`. */
    method TurnOff() returns (ok: bool)
      requires Valid()
      modifies this`Initialized
      ensures ok <==> old(Initialized)
      ensures !Initialized && Valid()
    {
      if !Initialized {
        return false;
      }
      Initialized := false;
      ok := true;
    }

    /** Clears the history at iteration `it`; an engine that is off is a
        misuse, reported as `false` with nothing changed. */
    method Reset(it: int) returns (ok: bool)
      requires Valid()
      modifies this, V, Vold, F, Fold, c, DV, DF, U, A, Beta
      ensures Valid()
      ensures ok <==> old(Initialized)
      ensures !ok ==> unchanged(this) && unchanged(V, Vold, F, Fold, c, DV, DF, U, A, Beta)
      ensures ok ==> Initialized && LastReset == it && CurrentDiff == old(CurrentDiff) && Zeroed()
    {
      if !Initialized {
        return false;
      }
      LastReset := it;
      PrepareArrays();
      ZeroHermitian(A);
      ok := true;
    }

    // ---- Predicates on the tables after a step ----

    /** Row p of DF holds the last change of the residual and row p of DV
        the change dv of the input, both divided by the root of the
        unconjugated square sum of the residual change. */
    ghost predicate SecantStored(p: int, dv: seq<Complex>)
      requires Shaped() && 0 <= p < MAX_ITS && |dv| == N
      reads DF, DV, F, Fold
    {
      var df := Diff(F[..], Fold[..]);
      Row(DF, p) == Normalise(df, Root(SquareSum(df, N))) && Row(DV, p) == Normalise(dv, Root(SquareSum(df, N)))
    }

    /** Column p of A holds, in rows 1..p, the products of the DF rows with
        row p, and row p of A their conjugates. */
    ghost predicate GramColumn(p: int)
      requires Shaped() && 0 <= p < MAX_ITS
      reads A, DF
    {
      forall i :: 1 <= i <= p ==> A[i, p] == Inner(Row(DF, i), Row(DF, p), N) && A[p, i] == Conj(A[i, p])
    }

    /** Rows 1..it-1 of U are the update directions alpha DF[n] + DV[n]. */
    ghost predicate Directions(it: int)
      requires Shaped() && it <= MAX_ITS
      reads U, DF, DV
    {
      forall n, i :: 1 <= n < it && 0 <= i < N ==> U[n, i] == Add(Mul(FromReal(alpha), DF[n, i]), DV[n, i])
    }

    /** The coefficients c[1..it-1] are the products of the residual with
        the DF rows. */
    ghost predicate CoefficientsStored(it: int)
      requires Shaped() && it <= MAX_ITS
      reads c, F, DF
    {
      forall k :: 1 <= k < it ==> c[k] == Inner(F[..], Row(DF, k), N)
    }

    /** V is v moved by the residual, scaled by alpha on a later step and
        by 1 on a first step, less the correction of a later step. */
    ghost predicate MixedFrom(v: seq<Complex>, it: int)
      requires Shaped() && |v| == N && (it > 1 ==> it <= MAX_ITS)
      reads V, F, c, Beta, U
    {
      forall i :: 0 <= i < N ==> V[i] == MixedValue(v[i], it, i)
    }

    /** Since the old state, only row p of DF and DV, row and column p of A
        (indices 1..p), and the entries of Beta in rows and columns 1..p
        have changed. */
    twostate predicate HistoryKept(p: int)
      requires Shaped() && 0 <= p < MAX_ITS
      reads DF, DV, A, Beta
    {
      && (forall q, j :: 0 <= q < MAX_ITS && q != p && 0 <= j < N ==> DF[q, j] == old(DF[q, j]) && DV[q, j] == old(DV[q, j]))
      && (forall a, b :: 0 <= a < MAX_ITS && 0 <= b < MAX_ITS && !(a == p && 1 <= b <= p) && !(b == p && 1 <= a <= p) ==>
            A[a, b] == old(A[a, b]))
      && (forall r, q :: 0 <= r < MAX_ITS && 0 <= q < MAX_ITS && (r == 0 || q == 0 || r > p || q > p) ==>
            Beta[r, q] == old(Beta[r, q]))
    }

    /** Since the old state, U and c have changed only in rows 1..r-1. */
    twostate predicate DirectionsKept(r: int)
      requires Shaped() && r <= MAX_ITS
      reads U, c
    {
      && (forall q, i :: 0 <= q < MAX_ITS && (q == 0 || q >= r) && 0 <= i < N ==> U[q, i] == old(U[q, i]))
      && (forall k :: 0 <= k < MAX_ITS && (k == 0 || k >= r) ==> c[k] == old(c[k]))
    }

    /** Column j of Beta, for j = 1..p, solves L U x = P e_j, where L and U
        are the factors `ludcmp` left in t and P its row exchanges perm. */
    ghost predicate BetaSolves(p: int, t: array2<Complex>, perm: seq<int>,
                               ws: map<int, seq<Complex>>, cols: map<int, seq<Complex>>)
      requires Shaped() && 0 <= p < MAX_ITS
      reads Beta, t
    {
      && t.Length0 == p + 1 && t.Length1 == p + 1 && PivotRows(perm, p)
      && SolvedBefore(t, p, perm, ws, cols, p + 1)
      && forall j :: 1 <= j <= p ==> j in cols && ColumnIs(Beta, p, j, cols[j])
    }

    /** Read along row p, the Gram matrix holds the products of row p of DF
        with the earlier rows, and its diagonal entry is a nonnegative real. */
    lemma GramRow(p: int)
      requires Shaped() && 1 <= p < MAX_ITS && GramColumn(p)
      ensures forall i :: 1 <= i <= p ==> A[p, i] == Inner(Row(DF, p), Row(DF, i), N)
      ensures A[p, p].im == 0.0 && A[p, p].re >= 0.0
    {
      forall i | 1 <= i <= p
        ensures A[p, i] == Inner(Row(DF, p), Row(DF, i), N)
      {
        InnerConjSym(Row(DF, i), Row(DF, p), N);
      }
      InnerSelf(Row(DF, p), N);
    }

    /** A residual orthogonal to every stored DF row has no correction: the
        later step reduces to linear mixing V + alpha F. */
    lemma OrthogonalResidual(v: Complex, it: int, i: int)
      requires Shaped() && 2 <= it <= MAX_ITS && 0 <= i < N && CoefficientsStored(it)
      requires forall k :: 1 <= k < it ==> Inner(F[..], Row(DF, k), N) == Zero
      ensures MixedValue(v, it, i) == Add(v, Mul(FromReal(alpha), F[i]))
    {
      CorrectionVanishes(c[..], Beta, U, it - 1, it - 1, i);
    }

    // ---- The steps of `CalculateNew` ----

    /** Fold takes the residual and F becomes the difference between the
        new input and the current one. */
    method UpdateResidual(Vnew: array<Complex>)
      requires Shaped() && Vnew.Length == N && Vnew != F && Vnew != Fold
      modifies F, Fold
      ensures Fold[..] == old(F[..]) && F[..] == Diff(old(Vnew[..]), old(V[..]))
      ensures unchanged(V, Vold, Vnew, c, DV, DF, U, A, Beta)
    {
      var i := 0;
      while i < N
        invariant 0 <= i <= N
        invariant forall j :: 0 <= j < i ==> Fold[j] == old(F[j]) && F[j] == Sub(Vnew[j], V[j])
        invariant forall j :: i <= j < N ==> F[j] == old(F[j])
      {
        Fold[i] := F[i];
        F[i] := Sub(Vnew[i], V[i]);
        i := i + 1;
      }
    }

    /** Stores the normalised secant step of iteration it in row it - 1. */
    method AddDs(it: int)
      requires Shaped() && 2 <= it <= MAX_ITS
      modifies DF, DV
      ensures SecantStored(it - 1, Diff(V[..], Vold[..]))
      ensures forall p, j :: 0 <= p < MAX_ITS && p != it - 1 && 0 <= j < N ==> DF[p, j] == old(DF[p, j])
      ensures forall p, j :: 0 <= p < MAX_ITS && p != it - 1 && 0 <= j < N ==> DV[p, j] == old(DV[p, j])
    {
      var sum := StoreDifferences(it - 1);
      ScaleSecant(it - 1, Root(sum));
      assert Row(DF, it - 1) == Normalise(Diff(F[..], Fold[..]), Root(sum));
      assert Row(DV, it - 1) == Normalise(Diff(V[..], Vold[..]), Root(sum));
    }

    /** The first loop of `add_Ds`: row p of DF and DV takes the changes of
        the residual and of the input, and the unconjugated square sum of
        the residual change is accumulated. */
    method StoreDifferences(p: int) returns (sum: Complex)
      requires Shaped() && 0 <= p < MAX_ITS
      modifies DF, DV
      ensures sum == SquareSum(Diff(F[..], Fold[..]), N)
      ensures forall j :: 0 <= j < N ==> DF[p, j] == Sub(F[j], Fold[j]) && DV[p, j] == Sub(V[j], Vold[j])
      ensures forall q, j :: 0 <= q < MAX_ITS && q != p && 0 <= j < N ==> DF[q, j] == old(DF[q, j])
      ensures forall q, j :: 0 <= q < MAX_ITS && q != p && 0 <= j < N ==> DV[q, j] == old(DV[q, j])
    {
      sum := Zero;
      ghost var df := Diff(F[..], Fold[..]);
      var i := 0;
      while i < N
        invariant 0 <= i <= N
        invariant sum == SquareSum(df, i)
        invariant forall j :: 0 <= j < i ==> DF[p, j] == Sub(F[j], Fold[j]) && DV[p, j] == Sub(V[j], Vold[j])
        invariant forall q, j :: 0 <= q < MAX_ITS && q != p && 0 <= j < N ==> DF[q, j] == old(DF[q, j])
        invariant forall q, j :: 0 <= q < MAX_ITS && q != p && 0 <= j < N ==> DV[q, j] == old(DV[q, j])
      {
        DF[p, i] := Sub(F[i], Fold[i]);
        DV[p, i] := Sub(V[i], Vold[i]);
        sum := Add(sum, Mul(DF[p, i], DF[p, i]));
        i := i + 1;
      }
    }

    /** The second loop of `add_Ds`: row p of DF and DV divided by s. */
    method ScaleSecant(p: int, s: NonZero)
      requires Shaped() && 0 <= p < MAX_ITS
      modifies DF, DV
      ensures forall j :: 0 <= j < N ==> DF[p, j] == Div(old(DF[p, j]), s) && DV[p, j] == Div(old(DV[p, j]), s)
      ensures forall q, j :: 0 <= q < MAX_ITS && q != p && 0 <= j < N ==> DF[q, j] == old(DF[q, j])
      ensures forall q, j :: 0 <= q < MAX_ITS && q != p && 0 <= j < N ==> DV[q, j] == old(DV[q, j])
    {
      var i := 0;
      while i < N
        invariant 0 <= i <= N
        invariant forall j :: 0 <= j < i ==> DF[p, j] == Div(old(DF[p, j]), s) && DV[p, j] == Div(old(DV[p, j]), s)
        invariant forall j :: i <= j < N ==> DF[p, j] == old(DF[p, j]) && DV[p, j] == old(DV[p, j])
        invariant forall q, j :: 0 <= q < MAX_ITS && q != p && 0 <= j < N ==> DF[q, j] == old(DF[q, j])
        invariant forall q, j :: 0 <= q < MAX_ITS && q != p && 0 <= j < N ==> DV[q, j] == old(DV[q, j])
      {
        DF[p, i] := Div(DF[p, i], s);
        DV[p, i] := Div(DV[p, i], s);
        i := i + 1;
      }
    }

    /** Extends the Gram matrix by the products of the DF rows with the new
        row it - 1, keeping it Hermitian. */
    method AddAs(it: int)
      requires Shaped() && Hermitian(A) && 2 <= it <= MAX_ITS
      modifies A
      ensures Hermitian(A) && GramColumn(it - 1)
      ensures forall a, b :: 0 <= a < MAX_ITS && 0 <= b < MAX_ITS && !(a == it - 1 && 1 <= b < it) && !(b == it - 1 && 1 <= a < it) ==>
        A[a, b] == old(A[a, b])
    {
      var p := it - 1;
      var i := 1;
      while i <= p
        invariant 1 <= i <= p + 1
        invariant Hermitian(A)
        invariant forall q :: 1 <= q < i ==> A[q, p] == Inner(Row(DF, q), Row(DF, p), N) && A[p, q] == Conj(A[q, p])
        invariant forall a, b :: 0 <= a < MAX_ITS && 0 <= b < MAX_ITS && !(a == p && 1 <= b < i) && !(b == p && 1 <= a < i) ==>
          A[a, b] == old(A[a, b])
      {
        var prod := Multiply(Row(DF, i), Row(DF, p), N);
        if i == p {
          InnerSelf(Row(DF, p), N);
        }
        SetGramPair(i, p, prod);
        i := i + 1;
      }
    }

    /** A[i][p] := z and A[p][i] := conj(A[i][p]), which keeps A Hermitian
        when z is real or i differs from p. */
    method SetGramPair(i: int, p: int, z: Complex)
      requires Shaped() && Hermitian(A) && 0 <= i < MAX_ITS && 0 <= p < MAX_ITS
      requires i == p ==> Conj(z) == z
      modifies A
      ensures Hermitian(A) && A[i, p] == z && A[p, i] == Conj(z)
      ensures forall a, b :: 0 <= a < MAX_ITS && 0 <= b < MAX_ITS && !(a == i && b == p) && !(a == p && b == i) ==>
        A[a, b] == old(A[a, b])
    {
      A[i, p] := z;
      A[p, i] := Conj(A[i, p]);
      forall a, b | 0 <= a < MAX_ITS && 0 <= b < MAX_ITS
        ensures A[a, b] == Conj(A[b, a])
      {
        if !((a == i && b == p) || (a == p && b == i)) {
          assert A[a, b] == old(A[a, b]) && A[b, a] == old(A[b, a]);
        }
      }
    }

    /** The matrix A + omega0^2 I of order it - 1, in a new table. */
    method Regularise(it: int) returns (t: array2<Complex>)
      requires Shaped() && 2 <= it <= MAX_ITS
      ensures fresh(t) && t.Length0 == it && t.Length1 == it
      ensures RegularisedCopy(t, A, omega0, it - 1)
    {
      t := new Complex[it, it]((_, _) => Zero);
      var i := 1;
      while i < it
        invariant 1 <= i <= it
        invariant forall p, q :: 1 <= p < i && 1 <= q < it ==> t[p, q] == Regularised(A, omega0, p, q)
      {
        RegulariseRow(t, i);
        i := i + 1;
      }
    }

    /** Row i of t, columns 1..t.Length1-1, takes row i of A + omega0^2 I. */
    method RegulariseRow(t: array2<Complex>, i: int)
      requires Shaped() && 0 <= i < t.Length0 && t.Length1 <= MAX_ITS && i < MAX_ITS && t != A
      modifies t
      ensures forall q :: 1 <= q < t.Length1 ==> t[i, q] == Regularised(A, omega0, i, q)
      ensures forall p, q :: 0 <= p < t.Length0 && 0 <= q < t.Length1 && p != i ==> t[p, q] == old(t[p, q])
    {
      var j := 1;
      while j < t.Length1
        invariant 1 <= j <= t.Length1 || t.Length1 == 0
        invariant forall q :: 1 <= q < j && q < t.Length1 ==> t[i, q] == Regularised(A, omega0, i, q)
        invariant forall p, q :: 0 <= p < t.Length0 && 0 <= q < t.Length1 && p != i ==> t[p, q] == old(t[p, q])
      {
        t[i, j] := Add(FromReal(if i - j == 0 then Times(omega0, omega0) else 0.0), A[i, j]);
        j := j + 1;
      }
    }

    /** Inverts the regularised Gram matrix into Beta. It fails, leaving
        Beta alone, exactly when the regularised matrix has a zero row;
        otherwise column j of Beta solves L U x = P e_j for the factors L, U
        stored in t and the row exchanges perm. */
    method GetBetas(it: int)
      returns (ok: bool, ghost t: array2<Complex>, ghost perm: seq<int>,
               ghost ws: map<int, seq<Complex>>, ghost cols: map<int, seq<Complex>>)
      requires Shaped() && 2 <= it <= MAX_ITS
      modifies Beta
      ensures ok <==> !RegularisedZeroRow(A, omega0, it - 1)
      ensures !ok ==> unchanged(Beta)
      ensures fresh(t) && t.Length0 == it && t.Length1 == it
      ensures ok ==> PivotRows(perm, it - 1) && SolvedBefore(t, it - 1, perm, ws, cols, it)
      ensures ok ==> forall j :: 1 <= j < it ==> j in cols && ColumnIs(Beta, it - 1, j, cols[j])
      ensures forall r, q :: 0 <= r < MAX_ITS && 0 <= q < MAX_ITS && (r == 0 || q == 0 || r >= it || q >= it) ==>
        Beta[r, q] == old(Beta[r, q])
    {
      var tt := Regularise(it);
      RegularisedSingular(tt, A, omega0, it - 1);
      ok, perm, ws, cols := InverseMatrix(tt, Beta, it - 1);
      t := tt;
    }

    /** Sets row n of U to alpha DF[n] + DV[n]. */
    method SetDirection(n: int)
      requires Shaped() && 0 <= n < MAX_ITS
      modifies U
      ensures forall i :: 0 <= i < N ==> U[n, i] == Add(Mul(FromReal(alpha), DF[n, i]), DV[n, i])
      ensures forall q, i :: 0 <= q < MAX_ITS && q != n && 0 <= i < N ==> U[q, i] == old(U[q, i])
    {
      var i := 0;
      while i < N
        invariant 0 <= i <= N
        invariant forall j :: 0 <= j < i ==> U[n, j] == Add(Mul(FromReal(alpha), DF[n, j]), DV[n, j])
        invariant forall q, j :: 0 <= q < MAX_ITS && q != n && 0 <= j < N ==> U[q, j] == old(U[q, j])
      {
        U[n, i] := Add(Mul(FromReal(alpha), DF[n, i]), DV[n, i]);
        i := i + 1;
      }
    }

    /** The update directions of rows 1..it-1. */
    method GetUs(it: int)
      requires Shaped() && it <= MAX_ITS
      modifies U
      ensures Directions(it)
      ensures forall q, i :: 0 <= q < MAX_ITS && (q == 0 || q >= it) && 0 <= i < N ==> U[q, i] == old(U[q, i])
    {
      var n := 1;
      while n < it
        invariant 1 <= n <= (if it > 1 then it else 1)
        invariant forall q, i :: 1 <= q < n && 0 <= i < N ==> U[q, i] == Add(Mul(FromReal(alpha), DF[q, i]), DV[q, i])
        invariant forall q, i :: 0 <= q < MAX_ITS && (q == 0 || q >= n) && 0 <= i < N ==> U[q, i] == old(U[q, i])
      {
        SetDirection(n);
        n := n + 1;
      }
    }

    /** The coefficients c[k] = <F, DF[k]> for k = 1..it-1. */
    method GetCs(it: int)
      requires Shaped() && it <= MAX_ITS
      modifies c
      ensures CoefficientsStored(it)
      ensures forall k :: 0 <= k < MAX_ITS && (k == 0 || k >= it) ==> c[k] == old(c[k])
    {
      var k := 1;
      while k < it
        invariant 1 <= k <= (if it > 1 then it else 1)
        invariant forall q :: 1 <= q < k ==> c[q] == Inner(F[..], Row(DF, q), N)
        invariant forall q :: 0 <= q < MAX_ITS && (q == 0 || q >= k) ==> c[q] == old(c[q])
      {
        c[k] := Multiply(F[..], Row(DF, k), N);
        k := k + 1;
      }
    }

    /** The correction of component i: the sum over n and k in 1..it-1 of
        c[k] Beta[k][n] U[n][i], zero when it <= 1. */
    method CorrTerm(it: int, i: int) returns (sum: Complex)
      requires Shaped() && (it > 1 ==> it <= MAX_ITS) && 0 <= i < N
      ensures sum == if it > 1 then Correction(c[..], Beta, U, it - 1, i) else Zero
    {
      sum := Zero;
      var n := 1;
      while n <= it - 1
        invariant 1 <= n <= (if it > 1 then it else 1)
        invariant it > 1 ==> sum == CorrSum(c[..], Beta, U, it - 1, n - 1, i)
        invariant it <= 1 ==> sum == Zero
      {
        var k := 1;
        while k <= it - 1
          invariant 1 <= k <= it
          invariant sum == Add(CorrSum(c[..], Beta, U, it - 1, n - 1, i), CorrRow(c[..], Beta, U, n, k - 1, i))
        {
          sum := Add(sum, Mul(Mul(c[k], Beta[k, n]), U[n, i]));
          k := k + 1;
        }
        n := n + 1;
      }
    }

    /** Vold takes V, V becomes the mixed vector and Vnew a copy of it. */
    method Mix(Vnew: array<Complex>, it: int)
      requires Shaped() && Vnew.Length == N && (it > 1 ==> it <= MAX_ITS)
      requires Vnew != V && Vnew != Vold && Vnew != F && Vnew != c
      modifies V, Vold, Vnew
      ensures Vold[..] == old(V[..]) && Vnew[..] == V[..] && MixedFrom(old(V[..]), it)
    {
      var i := 0;
      while i < N
        invariant 0 <= i <= N
        invariant forall j :: 0 <= j < i ==> Vold[j] == old(V[j]) && Vnew[j] == V[j] && V[j] == MixedValue(old(V[j]), it, j)
        invariant forall j :: i <= j < N ==> V[j] == old(V[j])
      {
        MixComponent(Vnew, it, i);
        i := i + 1;
      }
    }

    /** Component i of the mixed vector when the input was v. */
    ghost function MixedValue(v: Complex, it: int, i: int): Complex
      requires Shaped() && (it > 1 ==> it <= MAX_ITS) && 0 <= i < N
      reads F, c, Beta, U
    {
      Sub(Add(v, Mul(FromReal(if it > 1 then alpha else 1.0), F[i])),
          if it > 1 then Correction(c[..], Beta, U, it - 1, i) else Zero)
    }

    /** One pass of the mixing loop, on component i. */
    method MixComponent(Vnew: array<Complex>, it: int, i: int)
      requires Shaped() && Vnew.Length == N && (it > 1 ==> it <= MAX_ITS) && 0 <= i < N
      requires Vnew != V && Vnew != Vold && Vnew != F && Vnew != c
      modifies V, Vold, Vnew
      ensures Vold[i] == old(V[i]) && Vnew[i] == V[i] && V[i] == MixedValue(old(V[i]), it, i)
      ensures forall j :: 0 <= j < N && j != i ==> V[j] == old(V[j]) && Vold[j] == old(Vold[j]) && Vnew[j] == old(Vnew[j])
    {
      Vold[i] := V[i];
      var corr := CorrTerm(it, i);
      V[i] := Sub(Add(Vold[i], Mul(FromReal(if it > 1 then alpha else 1.0), F[i])), corr);
      Vnew[i] := V[i];
    }

    /** The largest squared change |x[i] - y[i]|^2 over i < n. */
    static method LargestChange(x: array<Complex>, y: array<Complex>, n: int) returns (m: real)
      requires 0 <= n <= x.Length && n <= y.Length
      ensures IsLargestChange(x[..], y[..], n, m)
    {
      m := 0.0;
      var i := 0;
      while i < n
        invariant 0 <= i <= n
        invariant IsLargestChange(x[..], y[..], i, m)
      {
        if NormSq(Sub(x[i], y[i])) > m {
          m := NormSq(Sub(x[i], y[i]));
        }
        i := i + 1;
      }
    }

    /** The product sum_{i < n} a[i] conj(b[i]). */
    static method Multiply(a: seq<Complex>, b: seq<Complex>, n: int) returns (sum: Complex)
      requires 0 <= n <= |a| && n <= |b|
      ensures sum == Inner(a, b, n)
    {
      sum := Zero;
      var i := 0;
      while i < n
        invariant 0 <= i <= n
        invariant sum == Inner(a, b, i)
      {
        sum := Add(sum, Mul(a[i], Conj(b[i])));
        i := i + 1;
      }
    }

    /** The Kronecker delta. */
    static function KDelta(i: int, j: int): (r: int)
      ensures r == 0 || r == 1
      ensures r == 1 <==> i == j
    {
      if i - j == 0 then 1 else 0
    }

    /** One step of the mixing at iteration it, counted from the last reset.
        A first step takes the new input as it is. A later step stores the
        secant step, extends the Gram matrix and inverts its regularisation,
        failing with -1 when that matrix has a zero row; otherwise it mixes
        the input with the correction, records the largest squared change
        and reports 1 when every component moved by less than Accr. */
    method CalculateNew(Vnew: array<Complex>, it: int)
      returns (res: int, ghost t: array2<Complex>, ghost perm: seq<int>,
               ghost ws: map<int, seq<Complex>>, ghost cols: map<int, seq<Complex>>)
      requires Valid() && Initialized
      requires Vnew.Length == N && Vnew != V && Vnew != Vold && Vnew != F && Vnew != Fold && Vnew != c
      requires it - LastReset > 1 ==> it - LastReset <= MAX_ITS
      modifies this`CurrentDiff, V, Vold, F, Fold, c, DV, DF, U, A, Beta, Vnew
      ensures Shaped() && Initialized && Hermitian(A)
      ensures res == -1 || res == 0 || res == 1
      ensures Fold[..] == old(F[..]) && F[..] == Diff(old(Vnew[..]), old(V[..]))
      ensures it - LastReset <= 1 ==>
        && res == 0 && V[..] == old(Vnew[..]) && Vold[..] == old(V[..]) && Vnew[..] == V[..]
        && unchanged(c, DV, DF, U, A, Beta) && CurrentDiff == old(CurrentDiff)
      ensures it - LastReset > 1 ==>
        && SecantStored(it - LastReset - 1, Diff(old(V[..]), old(Vold[..])))
        && GramColumn(it - LastReset - 1)
        && (res == -1 <==> RegularisedZeroRow(A, omega0, it - LastReset - 1))
        && HistoryKept(it - LastReset - 1) && DirectionsKept(it - LastReset)
      ensures res == -1 ==> unchanged(V, Vold, Vnew, U, c, Beta) && CurrentDiff == old(CurrentDiff)
      ensures it - LastReset > 1 && res != -1 ==> BetaSolves(it - LastReset - 1, t, perm, ws, cols)
      ensures it - LastReset > 1 && res != -1 ==>
        && Directions(it - LastReset) && CoefficientsStored(it - LastReset)
        && Vold[..] == old(V[..]) && Vnew[..] == V[..] && MixedFrom(old(V[..]), it - LastReset)
        && IsLargestChange(V[..], Vold[..], N, CurrentDiff)
        && (res == 1 <==> Converged(CurrentDiff, Accr))
        && (res == 1 <==> 0.0 < Accr && forall i :: 0 <= i < N ==> NormSq(Sub(V[i], Vold[i])) < Times(Accr, Accr))
    {
      var r := it - LastReset;
      UpdateResidual(Vnew);
      res, t, perm, ws, cols := Step(Vnew, r);
      assert r == it - LastReset;
    }

    /** CalculateNew after the residual update, at step r counted from the
        last reset. */
    method Step(Vnew: array<Complex>, r: int)
      returns (res: int, ghost t: array2<Complex>, ghost perm: seq<int>,
               ghost ws: map<int, seq<Complex>>, ghost cols: map<int, seq<Complex>>)
      requires Shaped() && Hermitian(A)
      requires Vnew.Length == N && Vnew != V && Vnew != Vold && Vnew != F && Vnew != Fold && Vnew != c
      requires r > 1 ==> r <= MAX_ITS
      requires F[..] == Diff(Vnew[..], V[..])
      modifies this`CurrentDiff, V, Vold, c, DV, DF, U, A, Beta, Vnew
      ensures Hermitian(A)
      ensures res == -1 || res == 0 || res == 1
      ensures r <= 1 ==>
        && res == 0 && V[..] == old(Vnew[..]) && Vold[..] == old(V[..]) && Vnew[..] == V[..]
        && unchanged(c, DV, DF, U, A, Beta) && CurrentDiff == old(CurrentDiff)
      ensures r > 1 ==>
        && SecantStored(r - 1, Diff(old(V[..]), old(Vold[..])))
        && GramColumn(r - 1)
        && (res == -1 <==> RegularisedZeroRow(A, omega0, r - 1))
        && HistoryKept(r - 1) && DirectionsKept(r)
      ensures res == -1 ==> unchanged(V, Vold, Vnew, U, c, Beta) && CurrentDiff == old(CurrentDiff)
      ensures r > 1 && res != -1 ==> BetaSolves(r - 1, t, perm, ws, cols)
      ensures r > 1 && res != -1 ==>
        && Directions(r) && CoefficientsStored(r)
        && Vold[..] == old(V[..]) && Vnew[..] == V[..] && MixedFrom(old(V[..]), r)
        && IsLargestChange(V[..], Vold[..], N, CurrentDiff)
        && (res == 1 <==> Converged(CurrentDiff, Accr))
        && (res == 1 <==> 0.0 < Accr && forall i :: 0 <= i < N ==> NormSq(Sub(V[i], Vold[i])) < Times(Accr, Accr))
    {
      if r <= 1 {
        FirstStep(Vnew);
        res, t, perm, ws, cols := 0, Beta, [], map[], map[];
      } else {
        res, t, perm, ws, cols := LaterStep(Vnew, r);
      }
    }

    /** A later step: learn from the last secant step, then, unless the
        regularised Gram matrix is singular, mix and test. */
    method LaterStep(Vnew: array<Complex>, r: int)
      returns (res: int, ghost t: array2<Complex>, ghost perm: seq<int>,
               ghost ws: map<int, seq<Complex>>, ghost cols: map<int, seq<Complex>>)
      requires Shaped() && Hermitian(A) && 2 <= r <= MAX_ITS
      requires Vnew.Length == N && Vnew != V && Vnew != Vold && Vnew != F && Vnew != Fold && Vnew != c
      modifies this`CurrentDiff, V, Vold, c, DV, DF, U, A, Beta, Vnew
      ensures Hermitian(A)
      ensures HistoryKept(r - 1) && DirectionsKept(r)
      ensures res != -1 ==> BetaSolves(r - 1, t, perm, ws, cols)
      ensures res == -1 || res == 0 || res == 1
      ensures SecantStored(r - 1, Diff(old(V[..]), old(Vold[..]))) && GramColumn(r - 1)
      ensures res == -1 <==> RegularisedZeroRow(A, omega0, r - 1)
      ensures res == -1 ==> unchanged(V, Vold, Vnew, U, c, Beta) && CurrentDiff == old(CurrentDiff)
      ensures res != -1 ==>
        && Directions(r) && CoefficientsStored(r)
        && Vold[..] == old(V[..]) && Vnew[..] == V[..] && MixedFrom(old(V[..]), r)
        && IsLargestChange(V[..], Vold[..], N, CurrentDiff)
        && (res == 1 <==> Converged(CurrentDiff, Accr))
        && (res == 1 <==> 0.0 < Accr && forall i :: 0 <= i < N ==> NormSq(Sub(V[i], Vold[i])) < Times(Accr, Accr))
    {
      var ok;
      ok, t, perm, ws, cols := Learn(r);
      if !ok {
        res := -1;
        return;
      }
      assert V[..] == old(V[..]);
      res := Apply(Vnew, r);
    }

    /** The first step: V takes the new input, which is V moved by the
        whole residual. */
    method FirstStep(Vnew: array<Complex>)
      requires Shaped() && Vnew.Length == N && Vnew != V && Vnew != Vold && Vnew != F && Vnew != c
      requires F[..] == Diff(Vnew[..], V[..])
      modifies V, Vold, Vnew
      ensures V[..] == old(Vnew[..]) && Vold[..] == old(V[..]) && Vnew[..] == V[..]
    {
      Mix(Vnew, 1);
      forall i | 0 <= i < N
        ensures V[i] == old(Vnew[i])
      {
        FirstStepIdentity(old(V[i]), old(Vnew[i]));
      }
    }

    /** The part of a later step that learns from the last secant step:
        `add_Ds`, `add_As` and `get_Betas`. */
    method Learn(it: int)
      returns (ok: bool, ghost t: array2<Complex>, ghost perm: seq<int>,
               ghost ws: map<int, seq<Complex>>, ghost cols: map<int, seq<Complex>>)
      requires Shaped() && Hermitian(A) && 2 <= it <= MAX_ITS
      modifies DF, DV, A, Beta
      ensures Hermitian(A)
      ensures SecantStored(it - 1, Diff(old(V[..]), old(Vold[..]))) && GramColumn(it - 1)
      ensures ok <==> !RegularisedZeroRow(A, omega0, it - 1)
      ensures !ok ==> unchanged(Beta)
      ensures HistoryKept(it - 1) && fresh(t)
      ensures ok ==> BetaSolves(it - 1, t, perm, ws, cols)
    {
      AddDs(it);
      AddAs(it);
      ok, t, perm, ws, cols := GetBetas(it);
    }

    /** The rest of a successful later step: update directions,
        coefficients, mixing and the convergence test. */
    method Apply(Vnew: array<Complex>, it: int) returns (res: int)
      requires Shaped() && 2 <= it <= MAX_ITS
      requires Vnew.Length == N && Vnew != V && Vnew != Vold && Vnew != F && Vnew != Fold && Vnew != c
      modifies this`CurrentDiff, U, c, V, Vold, Vnew
      ensures unchanged(A, DF, DV, F, Fold) && DirectionsKept(it)
      ensures res == 0 || res == 1
      ensures Directions(it) && CoefficientsStored(it)
      ensures Vold[..] == old(V[..]) && Vnew[..] == V[..] && MixedFrom(old(V[..]), it)
      ensures IsLargestChange(V[..], Vold[..], N, CurrentDiff)
      ensures res == 1 <==> Converged(CurrentDiff, Accr)
      ensures res == 1 <==> 0.0 < Accr && forall i :: 0 <= i < N ==> NormSq(Sub(V[i], Vold[i])) < Times(Accr, Accr)
    {
      GetUs(it);
      GetCs(it);
      res := MixAndTest(Vnew, it);
    }

    /** The mixing of a later step followed by the convergence test on the
        largest change. */
    method MixAndTest(Vnew: array<Complex>, it: int) returns (res: int)
      requires Shaped() && 2 <= it <= MAX_ITS
      requires Vnew.Length == N && Vnew != V && Vnew != Vold && Vnew != F && Vnew != c
      modifies this`CurrentDiff, V, Vold, Vnew
      ensures res == 0 || res == 1
      ensures Vold[..] == old(V[..]) && Vnew[..] == V[..] && MixedFrom(old(V[..]), it)
      ensures IsLargestChange(V[..], Vold[..], N, CurrentDiff)
      ensures res == 1 <==> Converged(CurrentDiff, Accr)
      ensures res == 1 <==> 0.0 < Accr && forall i :: 0 <= i < N ==> NormSq(Sub(V[i], Vold[i])) < Times(Accr, Accr)
    {
      Mix(Vnew, it);
      var m := LargestChange(Vnew, Vold, N);
      CurrentDiff := m;
      ConvergedIffAllSmall(V[..], Vold[..], N, m, Accr);
      if Converged(m, Accr) {
        res := 1;
      } else {
        res := 0;
      }
    }
  }
}
