/**
 * The four inverse-Hessian update rules of the quasi-Newton optimizer. Each takes the
 * current inverse-Hessian approximation H (n×n), the parameter change s and the gradient
 * change y, and returns the next approximation. Arithmetic is exact over `real`; where the
 * floating-point code divides by a vanishing denominator the model either states the
 * rule's own guard (BFGS, SR1) or requires the denominator to be nonzero (DFP, PSB).
 */
module UpdateRules {
  import opened LinAlg
  import opened Wrappers

  /** Default bound on |ρ| in BFGS when 1/(yᵀs) is infinite. */
  const DefaultMaxRho: real := 10000.0

  /** Default clipping bound for the DFP correction term. */
  const DefaultMaxNum: real := 100000.0

  /** Default tolerance of the SR1 skip test. */
  const DefaultEpsilon: real := 0.00000001

  function Abs(x: real): real {
    if x < 0.0 then -x else x
  }

  // ------------------------------------------------------------------- BFGS

  /**
   * ρ = 1/(yᵀs). In floating point a zero yᵀs makes ρ infinite and the code substitutes
   * maxrho with the sign of that infinity; the sign comes from the sign of the floating-point
   * zero, which a real number does not carry, so it is the input `negativeZero`.
   */
  function Rho(ys: real, maxrho: real, negativeZero: bool): (rho: real)
    ensures ys != 0.0 ==> rho * ys == 1.0
    ensures ys == 0.0 ==> Abs(rho) == Abs(maxrho)
  {
    if ys != 0.0 then 1.0 / ys
    else if negativeZero then -maxrho else maxrho
  }

  /** I − ρ u vᵀ */
  function BfgsFactor(rho: real, u: Vector, v: Vector): (m: Matrix)
    requires |u| == |v|
    ensures IsSquare(m, |u|)
  {
    SubM(Identity(|u|), ScaleM(rho, Outer(u, v)))
  }

  /** (I − ρ s yᵀ) H (I − ρ y sᵀ) + ρ s sᵀ for a given ρ. */
  function BfgsFormula(rho: real, h: Matrix, s: Vector, y: Vector): (r: Matrix)
    requires |y| == |s| && IsSquare(h, |s|)
    ensures IsSquare(r, |s|)
  {
    var param1 := BfgsFactor(rho, s, y);
    var param2 := BfgsFactor(rho, y, s);
    var param3 := ScaleM(rho, Outer(s, s));
    AddM(MatMul(MatMul(param1, h), param2), param3)
  }

  /** The BFGS update with ρ = 1/(yᵀs), guarded as Rho describes. */
  function Bfgs(h: Matrix, s: Vector, y: Vector, maxrho: real, negativeZero: bool): (r: Matrix)
    requires |y| == |s| && IsSquare(h, |s|)
    ensures IsSquare(r, |s|)
  {
    BfgsFormula(Rho(Dot(y, s), maxrho, negativeZero), h, s, y)
  }

  lemma BfgsFactorTranspose(rho: real, u: Vector, v: Vector)
    requires |u| == |v|
    ensures Transpose(BfgsFactor(rho, u, v)) == BfgsFactor(rho, v, u)
  {
    var n := |u|;
    forall i | 0 <= i < n ensures Transpose(BfgsFactor(rho, u, v))[i] == BfgsFactor(rho, v, u)[i] {
      forall j | 0 <= j < n
        ensures Transpose(BfgsFactor(rho, u, v))[i][j] == BfgsFactor(rho, v, u)[i][j]
      {
        assert Outer(u, v)[j][i] == u[j] * v[i];
        assert Outer(v, u)[i][j] == v[i] * u[j];
      }
    }
  }

  /** BFGS keeps a symmetric H symmetric, whatever value ρ takes. */
  lemma BfgsSymmetric(h: Matrix, s: Vector, y: Vector, maxrho: real, negativeZero: bool)
    requires |y| == |s| && IsSquare(h, |s|) && Symmetric(h)
    ensures Symmetric(Bfgs(h, s, y, maxrho, negativeZero))
  {
    var rho := Rho(Dot(y, s), maxrho, negativeZero);
    var param1 := BfgsFactor(rho, s, y);
    BfgsFactorTranspose(rho, s, y);
    SandwichSymmetric(param1, h);
    SymmetricOuterSelf(s);
    SymmetricScaleM(rho, Outer(s, s));
    SymmetricAddM(MatMul(MatMul(param1, h), BfgsFactor(rho, y, s)), ScaleM(rho, Outer(s, s)));
  }

  /** v − ρ (d v) == 0 when ρ d == 1. */
  lemma CancelScaled(rho: real, d: real, v: Vector)
    requires rho * d == 1.0
    ensures SubV(v, ScaleV(rho, ScaleV(d, v))) == Zeros(|v|)
  {
    forall i | 0 <= i < |v| ensures SubV(v, ScaleV(rho, ScaleV(d, v)))[i] == 0.0 {
      var vi := v[i];
      assert ScaleV(rho, ScaleV(d, v))[i] == rho * (d * vi);
      assert rho * (d * vi) == (rho * d) * vi;
    }
  }

  /** ρ (d v) == v when ρ d == 1. */
  lemma UnscaleScaled(rho: real, d: real, v: Vector)
    requires rho * d == 1.0
    ensures ScaleV(rho, ScaleV(d, v)) == v
  {
    forall i | 0 <= i < |v| ensures ScaleV(rho, ScaleV(d, v))[i] == v[i] {
      var vi := v[i];
      assert ScaleV(rho, ScaleV(d, v))[i] == rho * (d * vi);
      assert rho * (d * vi) == (rho * d) * vi;
    }
  }

  /** (I − ρ y sᵀ) y == 0 when ρ (sᵀy) == 1. */
  lemma BfgsFactorAnnihilates(rho: real, y: Vector, s: Vector)
    requires |y| == |s| && rho * Dot(s, y) == 1.0
    ensures MatVec(BfgsFactor(rho, y, s), y) == Zeros(|y|)
  {
    var n := |y|;
    var scaled := ScaleM(rho, Outer(y, s));
    MatVecSubM(Identity(n), scaled, y);
    MatVecIdentity(y);
    MatVecScaleM(rho, Outer(y, s), y);
    MatVecOuter(y, s, y);
    assert MatVec(scaled, y) == ScaleV(rho, ScaleV(Dot(s, y), y));
    assert MatVec(BfgsFactor(rho, y, s), y) == SubV(y, ScaleV(rho, ScaleV(Dot(s, y), y)));
    CancelScaled(rho, Dot(s, y), y);
  }

  /** (a b) y == 0 whenever b y == 0. */
  lemma MatMulAnnihilates(a: Matrix, b: Matrix, y: Vector)
    requires IsSquare(a, |y|) && IsSquare(b, |y|) && MatVec(b, y) == Zeros(|y|)
    ensures MatVec(MatMul(a, b), y) == Zeros(|y|)
  {
    MatVecMul(a, b, y);
    MatVecZeros(a, |y|);
  }

  /** ρ s sᵀ y == s when ρ (sᵀy) == 1. */
  lemma ScaledOuterMapsBack(rho: real, s: Vector, y: Vector)
    requires |y| == |s| && rho * Dot(s, y) == 1.0
    ensures MatVec(ScaleM(rho, Outer(s, s)), y) == s
  {
    MatVecScaleM(rho, Outer(s, s), y);
    MatVecOuter(s, s, y);
    UnscaleScaled(rho, Dot(s, y), s);
  }

  /** ρ = 1/(yᵀs) gives ρ (sᵀy) == 1. */
  lemma InverseOfDot(rho: real, y: Vector, s: Vector)
    requires |y| == |s| && Dot(y, s) != 0.0 && rho == 1.0 / Dot(y, s)
    ensures rho * Dot(s, y) == 1.0
  {
    DotComm(y, s);
  }

  /** The BFGS formula with ρ = 1/(yᵀs) maps y to s. */
  lemma BfgsFormulaSecant(rho: real, h: Matrix, s: Vector, y: Vector)
    requires |y| == |s| && IsSquare(h, |s|) && Dot(y, s) != 0.0 && rho == 1.0 / Dot(y, s)
    ensures MatVec(BfgsFormula(rho, h, s, y), y) == s
  {
    var n := |s|;
    var param2 := BfgsFactor(rho, y, s);
    var left := MatMul(BfgsFactor(rho, s, y), h);
    var sandwich := MatMul(left, param2);
    var param3 := ScaleM(rho, Outer(s, s));
    InverseOfDot(rho, y, s);
    BfgsFactorAnnihilates(rho, y, s);
    MatMulAnnihilates(left, param2, y);
    ScaledOuterMapsBack(rho, s, y);
    MatVecAddM(sandwich, param3, y);
    assert AddV(Zeros(n), s) == s;
  }

  /** The secant equation H'·y = s holds whenever yᵀs ≠ 0. */
  lemma BfgsSecant(h: Matrix, s: Vector, y: Vector, maxrho: real, negativeZero: bool)
    requires |y| == |s| && IsSquare(h, |s|) && Dot(y, s) != 0.0
    ensures MatVec(Bfgs(h, s, y, maxrho, negativeZero), y) == s
  {
    BfgsFormulaSecant(Rho(Dot(y, s), maxrho, negativeZero), h, s, y);
  }

  // -------------------------------------------------------------------- DFP

  /** Theano's scalar clip: below lo gives lo, above hi gives hi, otherwise unchanged. */
  function ClipValue(x: real, lo: real, hi: real): real {
    if x < lo then lo else if x > hi then hi else x
  }

  /** Elementwise clipping of a matrix into [lo, hi]. */
  function Clip(m: Matrix, lo: real, hi: real): (r: Matrix)
    requires IsSquare(m, |m|)
    ensures IsSquare(r, |m|)
    ensures lo <= hi ==> forall i, j :: 0 <= i < |m| && 0 <= j < |m| ==> lo <= r[i][j] <= hi
    ensures forall i, j :: 0 <= i < |m| && 0 <= j < |m| && lo <= m[i][j] <= hi ==> r[i][j] == m[i][j]
    ensures forall i, j :: 0 <= i < |m| && 0 <= j < |m| && m[i][j] < lo ==> r[i][j] == lo
    ensures forall i, j :: 0 <= i < |m| && 0 <= j < |m| && lo <= m[i][j] && hi < m[i][j] ==> r[i][j] == hi
  {
    seq(|m|, i requires 0 <= i < |m| =>
      seq(|m|, j requires 0 <= j < |m| => ClipValue(m[i][j], lo, hi)))
  }

  /** The DFP correction before division: clip((H y) yᵀ ∘ H, −maxnum, maxnum), ∘ elementwise. */
  function DfpNumerator(h: Matrix, y: Vector, maxnum: real): (m: Matrix)
    requires IsSquare(h, |y|)
    ensures IsSquare(m, |y|)
    ensures 0.0 <= maxnum ==>
      forall i, j :: 0 <= i < |y| && 0 <= j < |y| ==> -maxnum <= m[i][j] <= maxnum
  {
    Clip(Hadamard(Outer(MatVec(h, y), y), h), -maxnum, maxnum)
  }

  /**
   * H + s sᵀ/(yᵀs) − DfpNumerator/(yᵀ H y). Both divisions are unguarded in floating point,
   * so over the reals both denominators must be nonzero.
   */
  function Dfp(h: Matrix, s: Vector, y: Vector, maxnum: real): (r: Matrix)
    requires |y| == |s| && IsSquare(h, |s|)
    requires Dot(y, s) != 0.0 && Dot(y, MatVec(h, y)) != 0.0
    ensures IsSquare(r, |s|)
  {
    var param1 := DivM(Outer(s, s), Dot(y, s));
    var param2 := DivM(DfpNumerator(h, y, maxnum), Dot(y, MatVec(h, y)));
    SubM(AddM(h, param1), param2)
  }

  /**
   * For a diagonal H (such as the initial h0_scale·I) the elementwise correction is itself
   * diagonal, so the DFP result is symmetric.
   */
  lemma DfpDiagonalSymmetric(h: Matrix, s: Vector, y: Vector, maxnum: real)
    requires |y| == |s| && IsSquare(h, |s|) && Diagonal(h)
    requires Dot(y, s) != 0.0 && Dot(y, MatVec(h, y)) != 0.0
    ensures Symmetric(Dfp(h, s, y, maxnum))
  {
    var n := |s|;
    var had := Hadamard(Outer(MatVec(h, y), y), h);
    forall i, j | 0 <= i < n && 0 <= j < n ensures had[i][j] == had[j][i] {
      if i != j {
        assert h[i][j] == 0.0 && h[j][i] == 0.0;
      }
    }
    var num := DfpNumerator(h, y, maxnum);
    assert Symmetric(num);
    assert Symmetric(h);
    SymmetricOuterSelf(s);
    SymmetricDivM(Outer(s, s), Dot(y, s));
    SymmetricDivM(num, Dot(y, MatVec(h, y)));
    SymmetricAddM(h, DivM(Outer(s, s), Dot(y, s)));
    SymmetricSubM(AddM(h, DivM(Outer(s, s), Dot(y, s))), DivM(num, Dot(y, MatVec(h, y))));
  }

  /**
   * Because the correction uses an elementwise product, DFP does not keep a symmetric H
   * symmetric: H = [[1, 1], [1, 2]], s = y = [1, 0] gives H'[0][1] = 1 but H'[1][0] = 0.
   */
  lemma DfpNotSymmetric()
    ensures Symmetric([[1.0, 1.0], [1.0, 2.0]])
    ensures Dot([1.0, 0.0], [1.0, 0.0]) != 0.0
    ensures Dot([1.0, 0.0], MatVec([[1.0, 1.0], [1.0, 2.0]], [1.0, 0.0])) != 0.0
    ensures !Symmetric(Dfp([[1.0, 1.0], [1.0, 2.0]], [1.0, 0.0], [1.0, 0.0], DefaultMaxNum))
  {
    var h: Matrix := [[1.0, 1.0], [1.0, 2.0]];
    var e: Vector := [1.0, 0.0];
    DfpExampleProducts();
    DfpExampleNumerator();
    var num := DfpNumerator(h, e, DefaultMaxNum);
    var param1 := DivM(Outer(e, e), 1.0);
    var param2 := DivM(num, 1.0);
    var r := Dfp(h, e, e, DefaultMaxNum);
    assert r == SubM(AddM(h, param1), param2);
    assert r[0][1] == 1.0 + 0.0 - 0.0;
    assert r[1][0] == 1.0 + 0.0 - 1.0;
  }

  /** The products in DfpNotSymmetric: yᵀs = 1, H y = [1, 1] and yᵀ H y = 1. */
  lemma DfpExampleProducts()
    ensures Dot([1.0, 0.0], [1.0, 0.0]) == 1.0
    ensures MatVec([[1.0, 1.0], [1.0, 2.0]], [1.0, 0.0]) == [1.0, 1.0]
    ensures Dot([1.0, 0.0], [1.0, 1.0]) == 1.0
  {
    DotPair(1.0, 0.0, 1.0, 0.0);
    DotPair(1.0, 1.0, 1.0, 0.0);
    DotPair(1.0, 2.0, 1.0, 0.0);
    DotPair(1.0, 0.0, 1.0, 1.0);
  }

  /** The off-diagonal entries of the DFP numerator in DfpNotSymmetric differ. */
  lemma DfpExampleNumerator()
    ensures DfpNumerator([[1.0, 1.0], [1.0, 2.0]], [1.0, 0.0], DefaultMaxNum)[0][1] == 0.0
    ensures DfpNumerator([[1.0, 1.0], [1.0, 2.0]], [1.0, 0.0], DefaultMaxNum)[1][0] == 1.0
  {
    DfpExampleProducts();
    var had := Hadamard(Outer([1.0, 1.0], [1.0, 0.0]), [[1.0, 1.0], [1.0, 2.0]]);
    assert had[0][1] == 0.0 && had[1][0] == 1.0;
  }

  /**
   * The elementwise product also costs DFP the secant equation: H = I, s = y = [1, 1]
   * gives H' = [[1, 1/2], [1/2, 1]] and H'·y = [3/2, 3/2] ≠ s.
   */
  lemma DfpMissesSecant()
    ensures Dot([1.0, 1.0], [1.0, 1.0]) != 0.0
    ensures Dot([1.0, 1.0], MatVec(Identity(2), [1.0, 1.0])) != 0.0
    ensures MatVec(Dfp(Identity(2), [1.0, 1.0], [1.0, 1.0], DefaultMaxNum), [1.0, 1.0]) != [1.0, 1.0]
  {
    var h := Identity(2);
    var e: Vector := [1.0, 1.0];
    DotPair(1.0, 1.0, 1.0, 1.0);
    MatVecIdentity(e);
    assert MatVec(h, e) == e;
    var had := Hadamard(Outer(e, e), h);
    assert had[0][0] == 1.0 && had[0][1] == 0.0;
    var num := DfpNumerator(h, e, DefaultMaxNum);
    assert num[0][0] == 1.0 && num[0][1] == 0.0;
    var param1 := DivM(Outer(e, e), 2.0);
    assert param1[0][0] == 0.5 && param1[0][1] == 0.5;
    var param2 := DivM(num, 2.0);
    assert param2[0][0] == 0.5 && param2[0][1] == 0.0;
    var r := Dfp(h, e, e, DefaultMaxNum);
    assert r == SubM(AddM(h, param1), param2);
    assert r[0] == [1.0, 0.5];
    DotPair(1.0, 0.5, 1.0, 1.0);
    assert MatVec(r, e)[0] == 1.5;
  }

  // -------------------------------------------------------------------- PSB

  /** r = s − H y, the residual of the secant equation for the current H. */
  function Residual(h: Matrix, s: Vector, y: Vector): Vector
    requires |y| == |s| && IsSquare(h, |s|)
  {
    SubV(s, MatVec(h, y))
  }

  /** H + d (r yᵀ + y rᵀ) − d² (yᵀr) y yᵀ with r = s − H y, for a given d. */
  function PsbFormula(d: real, h: Matrix, s: Vector, y: Vector): (m: Matrix)
    requires |y| == |s| && IsSquare(h, |s|)
    ensures IsSquare(m, |s|)
  {
    var r := Residual(h, s, y);
    var param1 := AddM(Outer(r, y), Outer(y, r));
    var param2 := ScaleM(Dot(y, r), Outer(y, y));
    SubM(AddM(h, ScaleM(d, param1)), ScaleM(d * d, param2))
  }

  /**
   * Powell-symmetric-Broyden with d = 1/(yᵀy). The division is unguarded in floating
   * point, so y must be nonzero.
   */
  function Psb(h: Matrix, s: Vector, y: Vector): (m: Matrix)
    requires |y| == |s| && IsSquare(h, |s|) && Dot(y, y) != 0.0
    ensures IsSquare(m, |s|)
  {
    PsbFormula(1.0 / Dot(y, y), h, s, y)
  }

  lemma PsbSymmetric(h: Matrix, s: Vector, y: Vector)
    requires |y| == |s| && IsSquare(h, |s|) && Dot(y, y) != 0.0 && Symmetric(h)
    ensures Symmetric(Psb(h, s, y))
  {
    PsbFormulaSymmetric(1.0 / Dot(y, y), h, s, y);
  }

  lemma PsbFormulaSymmetric(d: real, h: Matrix, s: Vector, y: Vector)
    requires |y| == |s| && IsSquare(h, |s|) && Symmetric(h)
    ensures Symmetric(PsbFormula(d, h, s, y))
  {
    var r := Residual(h, s, y);
    var param1 := AddM(Outer(r, y), Outer(y, r));
    var param2 := ScaleM(Dot(y, r), Outer(y, y));
    SymmetricOuterPair(r, y);
    SymmetricScaleM(d, param1);
    SymmetricOuterSelf(y);
    SymmetricScaleM(Dot(y, r), Outer(y, y));
    SymmetricScaleM(d * d, param2);
    SymmetricAddM(h, ScaleM(d, param1));
    SymmetricSubM(AddM(h, ScaleM(d, param1)), ScaleM(d * d, param2));
  }

  lemma InverseOfSquaredNorm(y: Vector)
    requires Dot(y, y) != 0.0
    ensures (1.0 / Dot(y, y)) * Dot(y, y) == 1.0
  {
  }

  /** The secant equation H'·y = s holds whenever y ≠ 0. */
  lemma PsbSecant(h: Matrix, s: Vector, y: Vector)
    requires |y| == |s| && IsSquare(h, |s|) && Dot(y, y) != 0.0
    ensures MatVec(Psb(h, s, y), y) == s
  {
    InverseOfSquaredNorm(y);
    PsbFormulaSecant(1.0 / Dot(y, y), h, s, y);
  }

  /** (r yᵀ + y rᵀ) y == (yᵀy) r + (rᵀy) y */
  lemma PsbParam1Apply(r: Vector, y: Vector)
    requires |r| == |y|
    ensures MatVec(AddM(Outer(r, y), Outer(y, r)), y) == AddV(ScaleV(Dot(y, y), r), ScaleV(Dot(r, y), y))
  {
    MatVecAddM(Outer(r, y), Outer(y, r), y);
    MatVecOuter(r, y, y);
    MatVecOuter(y, r, y);
  }

  /** ((yᵀr) y yᵀ) y == (rᵀy) ((yᵀy) y) */
  lemma PsbParam2Apply(r: Vector, y: Vector)
    requires |r| == |y|
    ensures MatVec(ScaleM(Dot(y, r), Outer(y, y)), y) == ScaleV(Dot(r, y), ScaleV(Dot(y, y), y))
  {
    MatVecScaleM(Dot(y, r), Outer(y, y), y);
    MatVecOuter(y, y, y);
    DotComm(y, r);
  }

  /** The scalar bookkeeping of the PSB secant proof. */
  lemma PsbCancel(hy: Vector, r: Vector, y: Vector, s: Vector, d: real, yy: real, ry: real)
    requires |hy| == |r| == |y| == |s| && r == SubV(s, hy) && d * yy == 1.0
    ensures SubV(AddV(hy, ScaleV(d, AddV(ScaleV(yy, r), ScaleV(ry, y)))),
                 ScaleV(d * d, ScaleV(ry, ScaleV(yy, y)))) == s
  {
    var v1 := AddV(ScaleV(yy, r), ScaleV(ry, y));
    var plus := AddV(hy, ScaleV(d, v1));
    var w := ScaleV(ry, ScaleV(yy, y));
    var minus := ScaleV(d * d, w);
    forall i | 0 <= i < |s| ensures SubV(plus, minus)[i] == s[i] {
      var ri, yi := r[i], y[i];
      assert ri == s[i] - hy[i];
      assert v1[i] == yy * ri + ry * yi;
      assert plus[i] == hy[i] + d * v1[i];
      assert w[i] == ry * (yy * yi);
      assert minus[i] == (d * d) * w[i];
      PsbCancelEntry(hy[i], ri, yi, s[i], d, yy, ry);
    }
    assert SubV(plus, minus) == s;
  }

  lemma PsbCancelEntry(hy: real, r: real, y: real, s: real, d: real, yy: real, ry: real)
    requires r == s - hy && d * yy == 1.0
    ensures hy + d * (yy * r + ry * y) - (d * d) * (ry * (yy * y)) == s
  {
    assert d * (yy * r + ry * y) == (d * yy) * r + d * ry * y;
    assert (d * d) * (ry * (yy * y)) == (d * yy) * (d * ry * y);
  }

  /** Applying the PSB formula to y, written out in terms of H·y and the residual r. */
  lemma PsbFormulaApplied(d: real, h: Matrix, s: Vector, y: Vector)
    requires |y| == |s| && IsSquare(h, |s|)
    ensures MatVec(PsbFormula(d, h, s, y), y)
         == SubV(AddV(MatVec(h, y), ScaleV(d, AddV(ScaleV(Dot(y, y), Residual(h, s, y)),
                                                   ScaleV(Dot(Residual(h, s, y), y), y)))),
                 ScaleV(d * d, ScaleV(Dot(Residual(h, s, y), y), ScaleV(Dot(y, y), y))))
  {
    var r := Residual(h, s, y);
    var param1 := AddM(Outer(r, y), Outer(y, r));
    var param2 := ScaleM(Dot(y, r), Outer(y, y));
    PsbParam1Apply(r, y);
    PsbParam2Apply(r, y);
    MatVecScaleM(d, param1, y);
    MatVecScaleM(d * d, param2, y);
    MatVecAddM(h, ScaleM(d, param1), y);
    MatVecSubM(AddM(h, ScaleM(d, param1)), ScaleM(d * d, param2), y);
  }

  lemma PsbFormulaSecant(d: real, h: Matrix, s: Vector, y: Vector)
    requires |y| == |s| && IsSquare(h, |s|) && d * Dot(y, y) == 1.0
    ensures MatVec(PsbFormula(d, h, s, y), y) == s
  {
    PsbFormulaApplied(d, h, s, y);
    PsbResidualCancels(d, h, s, y);
  }

  lemma PsbResidualCancels(d: real, h: Matrix, s: Vector, y: Vector)
    requires |y| == |s| && IsSquare(h, |s|) && d * Dot(y, y) == 1.0
    ensures SubV(AddV(MatVec(h, y), ScaleV(d, AddV(ScaleV(Dot(y, y), Residual(h, s, y)),
                                                   ScaleV(Dot(Residual(h, s, y), y), y)))),
                 ScaleV(d * d, ScaleV(Dot(Residual(h, s, y), y), ScaleV(Dot(y, y), y))))
         == s
  {
    var hy := MatVec(h, y);
    var r := Residual(h, s, y);
    assert |hy| == |r| == |y| == |s|;
    assert r == SubV(s, hy);
    assert d * Dot(y, y) == 1.0;
    PsbCancel(hy, r, y, s, d, Dot(y, y), Dot(r, y));
  }

  // -------------------------------------------------------------------- SR1

  /**
   * The SR1 skip test |rᵀy| < ε‖r‖₂‖y‖₂, written without square roots: `rr` and `yy` are
   * the squared norms rᵀr and yᵀy. Sr1SkipTestMatchesNorms proves the two forms agree.
   */
  predicate Sr1Skips(denominator: real, epsilon: real, rr: real, yy: real) {
    0.0 <= epsilon && denominator * denominator < epsilon * epsilon * rr * yy
  }

  lemma Sr1SkipTestMatchesNorms(denominator: real, epsilon: real, normR: real, normY: real)
    requires 0.0 <= normR && 0.0 <= normY
    ensures Abs(denominator) < epsilon * normR * normY
        <==> Sr1Skips(denominator, epsilon, normR * normR, normY * normY)
  {
    var a := Abs(denominator);
    var b := epsilon * normR * normY;
    assert a * a == denominator * denominator;
    assert b * b == epsilon * epsilon * (normR * normR) * (normY * normY);
    assert 0.0 <= normR * normY;
    if epsilon < 0.0 {
      assert b <= 0.0;
    } else {
      assert 0.0 <= b;
      if a < b {
        assert a * a <= a * b;
        assert a * b < b * b;
      } else {
        assert a * a >= a * b;
        assert a * b >= b * b;
      }
    }
  }

  /**
   * The update as the code writes it. None stands for the non-finite matrix (NaN, or ±inf)
   * that a division by a zero rᵀy produces when the skip test does not fire.
   */
  function Sr1AsWritten(h: Matrix, s: Vector, y: Vector, epsilon: real): (r: Option<Matrix>)
    requires |y| == |s| && IsSquare(h, |s|)
    ensures r.Some? ==> IsSquare(r.value, |s|)
    ensures r.None? ==> Dot(Residual(h, s, y), y) == 0.0
  {
    var r := Residual(h, s, y);
    var denominator := Dot(r, y);
    if Sr1Skips(denominator, epsilon, Dot(r, r), Dot(y, y)) then Some(h)
    else if denominator == 0.0 then None
    else Some(AddM(h, DivM(Outer(r, r), denominator)))
  }

  /** Whether the corrected SR1 leaves H unchanged. */
  predicate Sr1Skipped(h: Matrix, s: Vector, y: Vector, epsilon: real)
    requires |y| == |s| && IsSquare(h, |s|)
  {
    var r := Residual(h, s, y);
    Dot(r, y) == 0.0 || Sr1Skips(Dot(r, y), epsilon, Dot(r, r), Dot(y, y))
  }

  /** Symmetric rank-1 update H + r rᵀ/(rᵀy), skipped also when rᵀy is exactly zero. */
  function Sr1(h: Matrix, s: Vector, y: Vector, epsilon: real): (m: Matrix)
    requires |y| == |s| && IsSquare(h, |s|)
    ensures IsSquare(m, |s|)
  {
    var r := Residual(h, s, y);
    if Sr1Skipped(h, s, y, epsilon) then h
    else AddM(h, DivM(Outer(r, r), Dot(r, y)))
  }

  /**
   * When H already satisfies the secant equation (s = H y) the residual is zero, the skip
   * test 0 < 0 fails, and the code divides the zero matrix by zero.
   */
  lemma Sr1AsWrittenDividesZeroByZero(h: Matrix, s: Vector, y: Vector, epsilon: real)
    requires |y| == |s| && IsSquare(h, |s|) && s == MatVec(h, y)
    ensures Sr1AsWritten(h, s, y, epsilon) == None
  {
    var r := Residual(h, s, y);
    DotZeroL(r, y);
    DotZeroL(r, r);
  }

  /** The corrected rule agrees with the code wherever the code yields a number. */
  lemma Sr1AgreesWithWritten(h: Matrix, s: Vector, y: Vector, epsilon: real)
    requires |y| == |s| && IsSquare(h, |s|)
    ensures Sr1AsWritten(h, s, y, epsilon).Some? ==> Sr1AsWritten(h, s, y, epsilon).value == Sr1(h, s, y, epsilon)
    ensures Sr1AsWritten(h, s, y, epsilon).None? <==> Sr1Skipped(h, s, y, epsilon) && !Sr1Skips(Dot(Residual(h, s, y), y), epsilon, Dot(Residual(h, s, y), Residual(h, s, y)), Dot(y, y))
  {
  }

  lemma Sr1Symmetric(h: Matrix, s: Vector, y: Vector, epsilon: real)
    requires |y| == |s| && IsSquare(h, |s|) && Symmetric(h)
    ensures Symmetric(Sr1(h, s, y, epsilon))
  {
    var r := Residual(h, s, y);
    if !Sr1Skipped(h, s, y, epsilon) {
      SymmetricOuterSelf(r);
      SymmetricDivM(Outer(r, r), Dot(r, y));
      SymmetricAddM(h, DivM(Outer(r, r), Dot(r, y)));
    }
  }

  /** SR1 either returns H exactly (skip) or satisfies the secant equation H'·y = s. */
  lemma Sr1Secant(h: Matrix, s: Vector, y: Vector, epsilon: real)
    requires |y| == |s| && IsSquare(h, |s|)
    ensures Sr1Skipped(h, s, y, epsilon) ==> Sr1(h, s, y, epsilon) == h
    ensures !Sr1Skipped(h, s, y, epsilon) ==> MatVec(Sr1(h, s, y, epsilon), y) == s
  {
    var n := |s|;
    var r := Residual(h, s, y);
    var d := Dot(r, y);
    if !Sr1Skipped(h, s, y, epsilon) {
      DivMIsScale(Outer(r, r), d);
      MatVecAddM(h, DivM(Outer(r, r), d), y);
      MatVecScaleM(1.0 / d, Outer(r, r), y);
      MatVecOuter(r, r, y);
      var hy := MatVec(h, y);
      forall i | 0 <= i < n ensures MatVec(Sr1(h, s, y, epsilon), y)[i] == s[i] {
        var ri := r[i];
        assert MatVec(Sr1(h, s, y, epsilon), y)[i] == hy[i] + (1.0 / d) * (d * ri);
        assert (1.0 / d) * (d * ri) == ri;
      }
    }
  }
}
