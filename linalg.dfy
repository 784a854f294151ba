/**
 * Dense real vectors and square matrices: the products the inverse-Hessian update rules are
 * written with (dot, outer, matrix-vector, matrix-matrix), elementwise operations, and the
 * algebraic laws the update rules need (bilinearity, associativity, transposition).
 * Arithmetic is exact over `real`; floating-point rounding is not modelled.
 */
module LinAlg {

  type Vector = seq<real>

  /** A matrix as a sequence of rows. */
  type Matrix = seq<seq<real>>

  predicate IsMatrix(m: Matrix, rows: nat, cols: nat) {
    |m| == rows && forall i :: 0 <= i < rows ==> |m[i]| == cols
  }

  predicate IsSquare(m: Matrix, n: nat) {
    IsMatrix(m, n, n)
  }

  predicate Symmetric(m: Matrix) {
    IsSquare(m, |m|) &&
    forall i, j :: 0 <= i < |m| && 0 <= j < |m| ==> m[i][j] == m[j][i]
  }

  /** Every entry off the main diagonal is zero. */
  predicate Diagonal(m: Matrix) {
    IsSquare(m, |m|) &&
    forall i, j :: 0 <= i < |m| && 0 <= j < |m| && i != j ==> m[i][j] == 0.0
  }

  // ---------------------------------------------------------------- vectors

  function Zeros(n: nat): Vector {
    seq(n, _ => 0.0)
  }

  function AddV(u: Vector, v: Vector): Vector
    requires |u| == |v|
  {
    seq(|u|, i requires 0 <= i < |u| => u[i] + v[i])
  }

  function SubV(u: Vector, v: Vector): Vector
    requires |u| == |v|
  {
    seq(|u|, i requires 0 <= i < |u| => u[i] - v[i])
  }

  function ScaleV(c: real, v: Vector): Vector {
    seq(|v|, i requires 0 <= i < |v| => c * v[i])
  }

  function NegV(v: Vector): Vector {
    seq(|v|, i requires 0 <= i < |v| => -v[i])
  }

  /** The sum of the entries of a vector. */
  function Sum(v: Vector): real
    decreases |v|
  {
    if |v| == 0 then 0.0 else v[0] + Sum(v[1..])
  }

  /** The elementwise product of two vectors. */
  function MulV(u: Vector, v: Vector): Vector
    requires |u| == |v|
  {
    seq(|u|, i requires 0 <= i < |u| => u[i] * v[i])
  }

  /** The dot product uᵀv, as the sum of the elementwise product. */
  function Dot(u: Vector, v: Vector): real
    requires |u| == |v|
  {
    Sum(MulV(u, v))
  }

  // --------------------------------------------------------------- matrices

  function Identity(n: nat): (m: Matrix)
    ensures IsSquare(m, n)
  {
    seq(n, i => seq(n, j => if i == j then 1.0 else 0.0))
  }

  /** The outer product u vᵀ; its row i is u[i] v. */
  function Outer(u: Vector, v: Vector): (m: Matrix)
    ensures IsMatrix(m, |u|, |v|)
  {
    seq(|u|, i requires 0 <= i < |u| => ScaleV(u[i], v))
  }

  function AddM(a: Matrix, b: Matrix): (m: Matrix)
    requires IsSquare(a, |a|) && IsSquare(b, |a|)
    ensures IsSquare(m, |a|)
  {
    seq(|a|, i requires 0 <= i < |a| => AddV(a[i], b[i]))
  }

  function SubM(a: Matrix, b: Matrix): (m: Matrix)
    requires IsSquare(a, |a|) && IsSquare(b, |a|)
    ensures IsSquare(m, |a|)
  {
    seq(|a|, i requires 0 <= i < |a| => SubV(a[i], b[i]))
  }

  function ScaleM(c: real, a: Matrix): (m: Matrix)
    requires IsSquare(a, |a|)
    ensures IsSquare(m, |a|)
  {
    seq(|a|, i requires 0 <= i < |a| => ScaleV(c, a[i]))
  }

  /** Every entry divided by the scalar `d`. */
  function DivM(a: Matrix, d: real): (m: Matrix)
    requires IsSquare(a, |a|) && d != 0.0
    ensures IsSquare(m, |a|)
  {
    seq(|a|, i requires 0 <= i < |a| => seq(|a|, j requires 0 <= j < |a| => a[i][j] / d))
  }

  /** The elementwise (Hadamard) product. */
  function Hadamard(a: Matrix, b: Matrix): (m: Matrix)
    requires IsSquare(a, |a|) && IsSquare(b, |a|)
    ensures IsSquare(m, |a|)
  {
    seq(|a|, i requires 0 <= i < |a| => seq(|a|, j requires 0 <= j < |a| => a[i][j] * b[i][j]))
  }

  function Transpose(a: Matrix): (m: Matrix)
    requires IsSquare(a, |a|)
    ensures IsSquare(m, |a|)
  {
    seq(|a|, i requires 0 <= i < |a| => seq(|a|, j requires 0 <= j < |a| => a[j][i]))
  }

  function Col(m: Matrix, j: nat): Vector
    requires forall i :: 0 <= i < |m| ==> j < |m[i]|
  {
    seq(|m|, i requires 0 <= i < |m| => m[i][j])
  }

  /** m v: entry i is the dot product of row i with v. */
  function MatVec(m: Matrix, v: Vector): Vector
    requires IsMatrix(m, |m|, |v|)
  {
    seq(|m|, i requires 0 <= i < |m| => Dot(m[i], v))
  }

  /** aᵀ b for a matrix b with |a| rows and `cols` columns. */
  function VecMat(a: Vector, b: Matrix, cols: nat): Vector
    requires IsMatrix(b, |a|, cols)
  {
    seq(cols, k requires 0 <= k < cols => Dot(a, Col(b, k)))
  }

  /** The matrix product a b of two n×n matrices. */
  function MatMul(a: Matrix, b: Matrix): (m: Matrix)
    requires IsSquare(a, |a|) && IsSquare(b, |a|)
    ensures IsSquare(m, |a|)
  {
    seq(|a|, i requires 0 <= i < |a| => VecMat(a[i], b, |a|))
  }

  // ------------------------------------------------------ laws of the dot product

  lemma {:induction false} SumAdd(u: Vector, v: Vector)
    requires |u| == |v|
    ensures Sum(AddV(u, v)) == Sum(u) + Sum(v)
    decreases |u|
  {
    if |u| > 0 {
      assert AddV(u, v)[1..] == AddV(u[1..], v[1..]);
      SumAdd(u[1..], v[1..]);
    }
  }

  lemma {:induction false} SumSub(u: Vector, v: Vector)
    requires |u| == |v|
    ensures Sum(SubV(u, v)) == Sum(u) - Sum(v)
    decreases |u|
  {
    if |u| > 0 {
      assert SubV(u, v)[1..] == SubV(u[1..], v[1..]);
      SumSub(u[1..], v[1..]);
    }
  }

  lemma {:induction false} SumScale(c: real, v: Vector)
    ensures Sum(ScaleV(c, v)) == c * Sum(v)
    decreases |v|
  {
    if |v| > 0 {
      forall k | 0 <= k < |v| - 1 ensures ScaleV(c, v)[1..][k] == ScaleV(c, v[1..])[k] {
        assert ScaleV(c, v)[1..][k] == ScaleV(c, v)[k + 1];
      }
      assert ScaleV(c, v)[1..] == ScaleV(c, v[1..]);
      SumScale(c, v[1..]);
      assert c * v[0] + c * Sum(v[1..]) == c * (v[0] + Sum(v[1..]));
    }
  }

  lemma {:induction false} SumZero(z: Vector)
    requires forall k :: 0 <= k < |z| ==> z[k] == 0.0
    ensures Sum(z) == 0.0
    decreases |z|
  {
    if |z| > 0 {
      SumZero(z[1..]);
    }
  }

  /** A vector that is zero except at index i sums to its entry i. */
  lemma {:induction false} SumSingle(v: Vector, i: nat)
    requires i < |v|
    requires forall k :: 0 <= k < |v| && k != i ==> v[k] == 0.0
    ensures Sum(v) == v[i]
    decreases |v|
  {
    if i == 0 {
      SumZero(v[1..]);
    } else {
      SumSingle(v[1..], i - 1);
    }
  }

  lemma DotCons(u: Vector, v: Vector)
    requires |u| == |v| && |u| > 0
    ensures Dot(u, v) == u[0] * v[0] + Dot(u[1..], v[1..])
  {
    forall k | 0 <= k < |u| - 1 ensures MulV(u, v)[1..][k] == MulV(u[1..], v[1..])[k] {
      assert MulV(u, v)[1..][k] == MulV(u, v)[k + 1];
    }
    assert MulV(u, v)[1..] == MulV(u[1..], v[1..]);
  }

  lemma DotPair(a: real, b: real, c: real, d: real)
    ensures Dot([a, b], [c, d]) == a * c + b * d
  {
    DotCons([a, b], [c, d]);
    assert [a, b][1..] == [b] && [c, d][1..] == [d];
    DotCons([b], [d]);
    assert Dot([b][1..], [d][1..]) == 0.0;
  }

  lemma DotComm(u: Vector, v: Vector)
    requires |u| == |v|
    ensures Dot(u, v) == Dot(v, u)
  {
    assert MulV(u, v) == MulV(v, u);
  }

  lemma DotAddL(u: Vector, w: Vector, v: Vector)
    requires |u| == |w| == |v|
    ensures Dot(AddV(u, w), v) == Dot(u, v) + Dot(w, v)
  {
    forall k | 0 <= k < |u| ensures MulV(AddV(u, w), v)[k] == AddV(MulV(u, v), MulV(w, v))[k] {
      assert (u[k] + w[k]) * v[k] == u[k] * v[k] + w[k] * v[k];
    }
    assert MulV(AddV(u, w), v) == AddV(MulV(u, v), MulV(w, v));
    SumAdd(MulV(u, v), MulV(w, v));
  }

  lemma DotSubL(u: Vector, w: Vector, v: Vector)
    requires |u| == |w| == |v|
    ensures Dot(SubV(u, w), v) == Dot(u, v) - Dot(w, v)
  {
    forall k | 0 <= k < |u| ensures MulV(SubV(u, w), v)[k] == SubV(MulV(u, v), MulV(w, v))[k] {
      assert (u[k] - w[k]) * v[k] == u[k] * v[k] - w[k] * v[k];
    }
    assert MulV(SubV(u, w), v) == SubV(MulV(u, v), MulV(w, v));
    SumSub(MulV(u, v), MulV(w, v));
  }

  lemma DotScaleL(c: real, u: Vector, v: Vector)
    requires |u| == |v|
    ensures Dot(ScaleV(c, u), v) == c * Dot(u, v)
  {
    forall k | 0 <= k < |u| ensures MulV(ScaleV(c, u), v)[k] == ScaleV(c, MulV(u, v))[k] {
      assert (c * u[k]) * v[k] == c * (u[k] * v[k]);
    }
    assert MulV(ScaleV(c, u), v) == ScaleV(c, MulV(u, v));
    SumScale(c, MulV(u, v));
  }

  /** A vector with only zero entries has dot product zero with anything. */
  lemma DotZeroL(z: Vector, v: Vector)
    requires |z| == |v|
    requires forall k :: 0 <= k < |z| ==> z[k] == 0.0
    ensures Dot(z, v) == 0.0
  {
    SumZero(MulV(z, v));
  }

  /** Dot product with the i-th unit vector picks out entry i. */
  lemma DotUnitL(e: Vector, v: Vector, i: nat)
    requires |e| == |v| && i < |e|
    requires forall k :: 0 <= k < |e| ==> e[k] == (if k == i then 1.0 else 0.0)
    ensures Dot(e, v) == v[i]
  {
    SumSingle(MulV(e, v), i);
  }

  /** Row 0 of b contributes a[0] b[0] to aᵀ b; the other rows contribute a[1..]ᵀ b[1..]. */
  lemma VecMatCons(a: Vector, b: Matrix, cols: nat)
    requires IsMatrix(b, |a|, cols) && |a| > 0
    ensures VecMat(a, b, cols) == AddV(ScaleV(a[0], b[0]), VecMat(a[1..], b[1..], cols))
  {
    var a', b' := a[1..], b[1..];
    forall k | 0 <= k < cols
      ensures VecMat(a, b, cols)[k] == AddV(ScaleV(a[0], b[0]), VecMat(a', b', cols))[k]
    {
      assert Col(b, k)[1..] == Col(b', k);
      DotCons(a, Col(b, k));
    }
  }

  /**
   * The sum-exchange law behind every associativity fact:
   * Σ_l a[l] (Σ_k b[l][k] w[k]) == Σ_k (Σ_l a[l] b[l][k]) w[k].
   */
  lemma {:induction false} DotMatVec(a: Vector, b: Matrix, w: Vector)
    requires IsMatrix(b, |a|, |w|)
    ensures Dot(a, MatVec(b, w)) == Dot(VecMat(a, b, |w|), w)
    decreases |a|
  {
    var c := |w|;
    if |a| == 0 {
      forall k | 0 <= k < c ensures VecMat(a, b, c)[k] == 0.0 {
        assert Col(b, k) == [];
      }
      DotZeroL(VecMat(a, b, c), w);
    } else {
      var a', b' := a[1..], b[1..];
      assert MatVec(b, w)[1..] == MatVec(b', w);
      DotCons(a, MatVec(b, w));
      DotMatVec(a', b', w);
      VecMatCons(a, b, c);
      DotAddL(ScaleV(a[0], b[0]), VecMat(a', b', c), w);
      DotScaleL(a[0], b[0], w);
    }
  }

  // ------------------------------------------------ matrix-vector products

  lemma MatVecAddM(a: Matrix, b: Matrix, v: Vector)
    requires IsSquare(a, |v|) && IsSquare(b, |v|)
    ensures MatVec(AddM(a, b), v) == AddV(MatVec(a, v), MatVec(b, v))
  {
    forall i | 0 <= i < |v| ensures MatVec(AddM(a, b), v)[i] == AddV(MatVec(a, v), MatVec(b, v))[i] {
      DotAddL(a[i], b[i], v);
    }
  }

  lemma MatVecSubM(a: Matrix, b: Matrix, v: Vector)
    requires IsSquare(a, |v|) && IsSquare(b, |v|)
    ensures MatVec(SubM(a, b), v) == SubV(MatVec(a, v), MatVec(b, v))
  {
    forall i | 0 <= i < |v| ensures MatVec(SubM(a, b), v)[i] == SubV(MatVec(a, v), MatVec(b, v))[i] {
      DotSubL(a[i], b[i], v);
    }
  }

  lemma MatVecScaleM(c: real, a: Matrix, v: Vector)
    requires IsSquare(a, |v|)
    ensures MatVec(ScaleM(c, a), v) == ScaleV(c, MatVec(a, v))
  {
    forall i | 0 <= i < |v| ensures MatVec(ScaleM(c, a), v)[i] == ScaleV(c, MatVec(a, v))[i] {
      DotScaleL(c, a[i], v);
    }
  }

  lemma DivMIsScale(a: Matrix, d: real)
    requires IsSquare(a, |a|) && d != 0.0
    ensures DivM(a, d) == ScaleM(1.0 / d, a)
  {
    forall i | 0 <= i < |a| ensures DivM(a, d)[i] == ScaleM(1.0 / d, a)[i] {
      forall j | 0 <= j < |a| ensures DivM(a, d)[i][j] == ScaleM(1.0 / d, a)[i][j] {
        assert a[i][j] / d == (1.0 / d) * a[i][j];
      }
    }
  }

  /** (u vᵀ) w == (v·w) u */
  lemma MatVecOuter(u: Vector, v: Vector, w: Vector)
    requires |u| == |v| == |w|
    ensures MatVec(Outer(u, v), w) == ScaleV(Dot(v, w), u)
  {
    forall i | 0 <= i < |u| ensures MatVec(Outer(u, v), w)[i] == ScaleV(Dot(v, w), u)[i] {
      MatVecOuterEntry(u, v, w, i);
    }
  }

  lemma MatVecOuterEntry(u: Vector, v: Vector, w: Vector, i: nat)
    requires |u| == |v| == |w| && i < |u|
    ensures MatVec(Outer(u, v), w)[i] == Dot(v, w) * u[i]
  {
    var c := u[i];
    var x := Dot(v, w);
    assert Outer(u, v)[i] == ScaleV(c, v);
    DotScaleL(c, v, w);
    assert c * x == x * c;
  }

  lemma MatVecIdentity(v: Vector)
    ensures MatVec(Identity(|v|), v) == v
  {
    forall i | 0 <= i < |v| ensures MatVec(Identity(|v|), v)[i] == v[i] {
      DotUnitL(Identity(|v|)[i], v, i);
    }
  }

  lemma MatVecZeros(a: Matrix, n: nat)
    requires IsSquare(a, n)
    ensures MatVec(a, Zeros(n)) == Zeros(n)
  {
    forall i | 0 <= i < n ensures MatVec(a, Zeros(n))[i] == 0.0 {
      DotComm(a[i], Zeros(n));
      DotZeroL(Zeros(n), a[i]);
    }
  }

  // ------------------------------------------------ matrix-matrix products

  /** (a b) v == a (b v) */
  lemma MatVecMul(a: Matrix, b: Matrix, v: Vector)
    requires IsSquare(a, |v|) && IsSquare(b, |v|)
    ensures MatVec(MatMul(a, b), v) == MatVec(a, MatVec(b, v))
  {
    forall i | 0 <= i < |v| ensures MatVec(MatMul(a, b), v)[i] == MatVec(a, MatVec(b, v))[i] {
      DotMatVec(a[i], b, v);
    }
  }

  lemma MatMulAssoc(a: Matrix, b: Matrix, c: Matrix)
    requires IsSquare(a, |a|) && IsSquare(b, |a|) && IsSquare(c, |a|)
    ensures MatMul(MatMul(a, b), c) == MatMul(a, MatMul(b, c))
  {
    var n := |a|;
    forall i | 0 <= i < n ensures MatMul(MatMul(a, b), c)[i] == MatMul(a, MatMul(b, c))[i] {
      forall j | 0 <= j < n ensures MatMul(MatMul(a, b), c)[i][j] == MatMul(a, MatMul(b, c))[i][j] {
        var w := Col(c, j);
        assert Col(MatMul(b, c), j) == MatVec(b, w);
        DotMatVec(a[i], b, w);
      }
    }
  }

  /** (a b)ᵀ == bᵀ aᵀ */
  lemma TransposeMul(a: Matrix, b: Matrix)
    requires IsSquare(a, |a|) && IsSquare(b, |a|)
    ensures Transpose(MatMul(a, b)) == MatMul(Transpose(b), Transpose(a))
  {
    var n := |a|;
    forall i | 0 <= i < n ensures Transpose(MatMul(a, b))[i] == MatMul(Transpose(b), Transpose(a))[i] {
      forall j | 0 <= j < n ensures Transpose(MatMul(a, b))[i][j] == MatMul(Transpose(b), Transpose(a))[i][j] {
        assert Transpose(b)[i] == Col(b, i);
        assert Col(Transpose(a), j) == a[j];
        DotComm(a[j], Col(b, i));
      }
    }
  }

  lemma TransposeTranspose(a: Matrix)
    requires IsSquare(a, |a|)
    ensures Transpose(Transpose(a)) == a
  {
    forall i | 0 <= i < |a| ensures Transpose(Transpose(a))[i] == a[i] { }
  }

  lemma SymmetricIsOwnTranspose(a: Matrix)
    requires IsSquare(a, |a|)
    ensures Symmetric(a) <==> Transpose(a) == a
  {
    if Transpose(a) == a {
      forall i, j | 0 <= i < |a| && 0 <= j < |a| ensures a[i][j] == a[j][i] {
        assert Transpose(a)[i][j] == a[j][i];
      }
    }
    if Symmetric(a) {
      forall i | 0 <= i < |a| ensures Transpose(a)[i] == a[i] { }
    }
  }

  /** a h aᵀ is symmetric whenever h is. */
  lemma SandwichSymmetric(a: Matrix, h: Matrix)
    requires IsSquare(a, |a|) && IsSquare(h, |a|) && Symmetric(h)
    ensures Symmetric(MatMul(MatMul(a, h), Transpose(a)))
  {
    var t := Transpose(a);
    var x := MatMul(MatMul(a, h), t);
    SymmetricIsOwnTranspose(h);
    TransposeMul(MatMul(a, h), t);
    TransposeTranspose(a);
    TransposeMul(a, h);
    MatMulAssoc(a, h, t);
    assert Transpose(x) == MatMul(a, MatMul(h, t));
    SymmetricIsOwnTranspose(x);
  }

  // ------------------------------------------------------------- symmetry

  lemma SymmetricAddM(a: Matrix, b: Matrix)
    requires Symmetric(a) && Symmetric(b) && |a| == |b|
    ensures Symmetric(AddM(a, b))
  {
  }

  lemma SymmetricSubM(a: Matrix, b: Matrix)
    requires Symmetric(a) && Symmetric(b) && |a| == |b|
    ensures Symmetric(SubM(a, b))
  {
  }

  lemma SymmetricScaleM(c: real, a: Matrix)
    requires Symmetric(a)
    ensures Symmetric(ScaleM(c, a))
  {
  }

  lemma SymmetricDivM(a: Matrix, d: real)
    requires Symmetric(a) && d != 0.0
    ensures Symmetric(DivM(a, d))
  {
  }

  lemma SymmetricOuterSelf(u: Vector)
    ensures Symmetric(Outer(u, u))
  {
  }

  lemma SymmetricOuterPair(u: Vector, v: Vector)
    requires |u| == |v|
    ensures Symmetric(AddM(Outer(u, v), Outer(v, u)))
  {
  }
}
