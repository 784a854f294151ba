/**
 * The quasi-Newton optimizer: its configuration, its initial state and the state
 * transition of one training step. The optimizer keeps an approximation H of the inverse
 * Hessian, the parameter vector of the previous step and the gradient of the previous
 * step. A step
 *   1. replaces H by UpdateRule(H, p − prev_params, g − prev_full_gradient), except at epoch 1,
 *   2. moves along the direction d = −H g by the step length the line search returns, and
 *   3. stores H, p and g for the next step.
 * The gradient, the epoch number and the line-search step are inputs of the step.
 */
module QuasiNewton {
  import opened Wrappers
  import opened LinAlg
  import opened UpdateRules
  import opened Layout

  // ---------------------------------------------------------------- configuration

  datatype UpdateRule = BFGS | DFP | PSB | SR1

  /** The name under which each rule is chosen. */
  function RuleName(rule: UpdateRule): string {
    match rule
    case BFGS => "bfgs"
    case DFP => "dfp"
    case PSB => "psb"
    case SR1 => "sr1"
  }

  /** The rule chosen by `name`, or None for a name outside the four choices. */
  function ParseUpdateFunction(name: string): (r: Option<UpdateRule>)
    ensures forall rule :: r == Some(rule) <==> RuleName(rule) == name
  {
    if name == "bfgs" then Some(BFGS)
    else if name == "dfp" then Some(DFP)
    else if name == "psb" then Some(PSB)
    else if name == "sr1" then Some(SR1)
    else None
  }

  const DefaultUpdateFunction: string := "bfgs"
  const DefaultH0Scale: real := 1.0

  datatype Config = Config(rule: UpdateRule, h0Scale: real)

  datatype ConfigError = UnknownUpdateFunction(name: string) | NegativeH0Scale(value: real)

  /**
   * The validated configuration. The update function must be one of the four names and
   * h0_scale must be at least 0; anything else is rejected before training starts.
   */
  function Configure(name: string, h0Scale: real): (r: Result<Config, ConfigError>)
    ensures r.Ok? <==> name in {"bfgs", "dfp", "psb", "sr1"} && 0.0 <= h0Scale
    ensures r.Ok? ==> RuleName(r.value.rule) == name && r.value.h0Scale == h0Scale
    ensures r.Err? && r.error.UnknownUpdateFunction? ==> ParseUpdateFunction(name).None?
    ensures r.Err? && r.error.NegativeH0Scale? ==> h0Scale < 0.0
  {
    match ParseUpdateFunction(name)
    case None => Err(UnknownUpdateFunction(name))
    case Some(rule) =>
      if h0Scale < 0.0 then Err(NegativeH0Scale(h0Scale)) else Ok(Config(rule, h0Scale))
  }

  /** The defaults, bfgs and h0_scale 1, form a valid configuration. */
  lemma DefaultsAreValid()
    ensures Configure(DefaultUpdateFunction, DefaultH0Scale) == Ok(Config(BFGS, 1.0))
  {
    assert ParseUpdateFunction(DefaultUpdateFunction) == Some(BFGS);
  }

  // ------------------------------------------------------------------ the update

  /**
   * The zero-denominator cases the floating-point code lets through as inf/NaN: DFP divides
   * by yᵀs and yᵀHy, PSB by yᵀy. BFGS guards its own denominator; SR1 is applied in its
   * corrected form, which skips where the code divides 0 by 0.
   */
  predicate UpdateDefined(rule: UpdateRule, h: Matrix, s: Vector, y: Vector)
    requires |y| == |s| && IsSquare(h, |s|)
  {
    match rule
    case DFP => Dot(y, s) != 0.0 && Dot(y, MatVec(h, y)) != 0.0
    case PSB => Dot(y, y) != 0.0
    case _ => true
  }

  /** The configured update rule with its default constants (maxrho, maxnum, epsilon). */
  function ApplyUpdate(rule: UpdateRule, h: Matrix, s: Vector, y: Vector, negativeZero: bool)
    : (r: Matrix)
    requires |y| == |s| && IsSquare(h, |s|) && UpdateDefined(rule, h, s, y)
    ensures IsSquare(r, |s|)
  {
    match rule
    case BFGS => Bfgs(h, s, y, DefaultMaxRho, negativeZero)
    case DFP => Dfp(h, s, y, DefaultMaxNum)
    case PSB => Psb(h, s, y)
    case SR1 => Sr1(h, s, y, DefaultEpsilon)
  }

  /** H for this step: unchanged at epoch 1, otherwise the rule applied to the two differences. */
  function NextInverseHessian(rule: UpdateRule, epoch: nat, h: Matrix, p: Vector, prevParams: Vector,
                              g: Vector, prevGradient: Vector, negativeZero: bool): (r: Matrix)
    requires |p| == |prevParams| == |g| == |prevGradient| && IsSquare(h, |p|)
    requires epoch != 1 ==> UpdateDefined(rule, h, SubV(p, prevParams), SubV(g, prevGradient))
    ensures IsSquare(r, |p|)
  {
    if epoch == 1 then h
    else ApplyUpdate(rule, h, SubV(p, prevParams), SubV(g, prevGradient), negativeZero)
  }

  /** The secant equation holds after every update that is not skipped. */
  predicate SecantCondition(rule: UpdateRule, h: Matrix, s: Vector, y: Vector)
    requires |y| == |s| && IsSquare(h, |s|)
  {
    match rule
    case BFGS => Dot(y, s) != 0.0
    case DFP => false
    case PSB => Dot(y, y) != 0.0
    case SR1 => !Sr1Skipped(h, s, y, DefaultEpsilon)
  }

  /**
   * From epoch 2 on the new H maps the gradient change to the parameter change
   * (H'·(g − prev_g) == p − prev_p), for BFGS when yᵀs ≠ 0, for PSB when yᵀy ≠ 0 and for
   * SR1 when the update is not skipped.
   */
  lemma UpdateSatisfiesSecant(rule: UpdateRule, epoch: nat, h: Matrix, p: Vector, prevParams: Vector,
                              g: Vector, prevGradient: Vector, negativeZero: bool)
    requires |p| == |prevParams| == |g| == |prevGradient| && IsSquare(h, |p|) && epoch != 1
    requires UpdateDefined(rule, h, SubV(p, prevParams), SubV(g, prevGradient))
    requires SecantCondition(rule, h, SubV(p, prevParams), SubV(g, prevGradient))
    ensures MatVec(NextInverseHessian(rule, epoch, h, p, prevParams, g, prevGradient, negativeZero),
                   SubV(g, prevGradient)) == SubV(p, prevParams)
  {
    var s, y := SubV(p, prevParams), SubV(g, prevGradient);
    match rule
    case BFGS => BfgsSecant(h, s, y, DefaultMaxRho, negativeZero);
    case PSB => PsbSecant(h, s, y);
    case SR1 => Sr1Secant(h, s, y, DefaultEpsilon);
  }

  /** BFGS, PSB and SR1 keep H symmetric at every step. */
  lemma StepPreservesSymmetry(rule: UpdateRule, epoch: nat, h: Matrix, p: Vector, prevParams: Vector,
                              g: Vector, prevGradient: Vector, negativeZero: bool)
    requires |p| == |prevParams| == |g| == |prevGradient| && IsSquare(h, |p|) && Symmetric(h)
    requires rule != DFP
    requires epoch != 1 ==> UpdateDefined(rule, h, SubV(p, prevParams), SubV(g, prevGradient))
    ensures Symmetric(NextInverseHessian(rule, epoch, h, p, prevParams, g, prevGradient, negativeZero))
  {
    if epoch != 1 {
      var s, y := SubV(p, prevParams), SubV(g, prevGradient);
      match rule
      case BFGS => BfgsSymmetric(h, s, y, DefaultMaxRho, negativeZero);
      case PSB => PsbSymmetric(h, s, y);
      case SR1 => Sr1Symmetric(h, s, y, DefaultEpsilon);
    }
  }

  /** Every rule, DFP included, gives a symmetric H when it updates the initial h0_scale·I. */
  lemma FirstUpdateSymmetric(rule: UpdateRule, h0Scale: real, s: Vector, y: Vector, negativeZero: bool)
    requires |y| == |s| && UpdateDefined(rule, InitialInverseHessian(|s|, h0Scale), s, y)
    ensures Symmetric(ApplyUpdate(rule, InitialInverseHessian(|s|, h0Scale), s, y, negativeZero))
  {
    var h := InitialInverseHessian(|s|, h0Scale);
    match rule
    case BFGS => BfgsSymmetric(h, s, y, DefaultMaxRho, negativeZero);
    case DFP => DfpDiagonalSymmetric(h, s, y, DefaultMaxNum);
    case PSB => PsbSymmetric(h, s, y);
    case SR1 => Sr1Symmetric(h, s, y, DefaultEpsilon);
  }

  // -------------------------------------------------------- initial state and step

  /** h0_scale·I, the inverse Hessian before the first update. */
  function InitialInverseHessian(n: nat, h0Scale: real): (h: Matrix)
    ensures IsSquare(h, n) && Symmetric(h) && Diagonal(h)
    ensures forall i, j :: 0 <= i < n && 0 <= j < n ==> h[i][j] == (if i == j then h0Scale else 0.0)
  {
    ScaleM(h0Scale, Identity(n))
  }

  /** The descent direction −H g. */
  function Direction(h: Matrix, g: Vector): (d: Vector)
    requires IsSquare(h, |g|)
    ensures |d| == |g|
  {
    NegV(MatVec(h, g))
  }

  /** With H = h0_scale·I the direction is plain gradient descent scaled by h0_scale. */
  lemma InitialDirection(h0Scale: real, g: Vector)
    ensures Direction(InitialInverseHessian(|g|, h0Scale), g) == ScaleV(-h0Scale, g)
  {
    var h := InitialInverseHessian(|g|, h0Scale);
    MatVecScaleM(h0Scale, Identity(|g|), g);
    MatVecIdentity(g);
    assert MatVec(h, g) == ScaleV(h0Scale, g);
  }

  /** With h0_scale 1 and step length 1, the first step moves the parameters to p − g. */
  lemma FirstStepIsGradientStep(p: Vector, g: Vector)
    requires |p| == |g|
    ensures TrialPoint(p, Direction(InitialInverseHessian(|g|, 1.0), g), 1.0) == SubV(p, g)
  {
    InitialDirection(1.0, g);
    var d := Direction(InitialInverseHessian(|g|, 1.0), g);
    assert forall i :: 0 <= i < |p| ==> d[i] == -g[i];
  }

  /**
   * The optimizer. `params` are the live parameter tensors (flattened), in parameter order;
   * the other three fields are the state it carries from one step to the next.
   */
  class Optimizer {
    const config: Config
    /** The sizes of the parameter tensors, fixed for the optimizer's lifetime. */
    const sizes: seq<nat>
    /** n, the total number of scalar parameters. */
    const n: nat
    var params: seq<Vector>
    var invHessian: Matrix
    var prevParams: Vector
    var prevFullGradient: Vector

    ghost predicate Valid()
      reads this
    {
      n == Total(sizes) && SizesOf(params) == sizes &&
      IsSquare(invHessian, n) && |prevParams| == n && |prevFullGradient| == n &&
      (config.rule != DFP ==> Symmetric(invHessian))
    }

    /** The flat parameter vector p: all tensors concatenated in parameter order. */
    function ParamVector(): (p: Vector)
      reads this
      requires Valid()
      ensures |p| == n
    {
      Concat(params)
    }

    /** Initial state: H = h0_scale·I of size n×n and zero previous vectors of length n. */
    constructor (config: Config, initialParams: seq<Vector>)
      requires 0.0 <= config.h0Scale
      ensures Valid()
      ensures this.config == config && params == initialParams
      ensures sizes == SizesOf(initialParams) && n == Total(sizes)
      ensures invHessian == InitialInverseHessian(n, config.h0Scale)
      ensures prevParams == Zeros(n) && prevFullGradient == Zeros(n)
    {
      this.config := config;
      sizes := SizesOf(initialParams);
      n := Total(SizesOf(initialParams));
      params := initialParams;
      invHessian := InitialInverseHessian(Total(SizesOf(initialParams)), config.h0Scale);
      prevParams := Zeros(Total(SizesOf(initialParams)));
      prevFullGradient := Zeros(Total(SizesOf(initialParams)));
    }

    /**
     * One training step. `gradients` are the per-tensor gradients at the current parameters,
     * `step` is the step length the line search returned and `negativeZero` the sign of a
     * vanishing yᵀs in BFGS. Afterwards H is the (possibly updated) H, the parameters are
     * p + step·(−H g) cut back into tensors, and the previous vectors are p and g.
     */
    method TrainStep(epoch: nat, gradients: seq<Vector>, step: real, negativeZero: bool)
      requires Valid() && SizesOf(gradients) == sizes
      requires epoch != 1 ==> UpdateDefined(config.rule, invHessian,
                                     SubV(Concat(params), prevParams),
                                     SubV(Concat(gradients), prevFullGradient))
      modifies this
      ensures Valid()
      ensures epoch == 1 ==> invHessian == old(invHessian)
      ensures epoch != 1 ==>
        invHessian == ApplyUpdate(config.rule, old(invHessian),
                                  SubV(Concat(old(params)), old(prevParams)),
                                  SubV(Concat(gradients), old(prevFullGradient)), negativeZero)
      ensures epoch != 1 && config.rule == SR1 ==>
        var written := Sr1AsWritten(old(invHessian), SubV(Concat(old(params)), old(prevParams)),
                                    SubV(Concat(gradients), old(prevFullGradient)), DefaultEpsilon);
        written.Some? ==> invHessian == written.value
      ensures ParamVector() == TrialPoint(Concat(old(params)), Direction(invHessian, Concat(gradients)), step)
      ensures prevParams == Concat(old(params)) && prevFullGradient == Concat(gradients)
    {
      var p := Concat(params);
      var g := Concat(gradients);
      var h := NextInverseHessian(config.rule, epoch, invHessian, p, prevParams, g, prevFullGradient,
                                  negativeZero);
      if epoch != 1 && config.rule == SR1 {
        Sr1AgreesWithWritten(invHessian, SubV(p, prevParams), SubV(g, prevFullGradient), DefaultEpsilon);
      }
      if config.rule != DFP {
        StepPreservesSymmetry(config.rule, epoch, invHessian, p, prevParams, g, prevFullGradient,
                              negativeZero);
      }
      var updated := TrialPoint(p, Direction(h, g), step);
      ConcatSplit(updated, sizes);
      SplitSizes(updated, sizes);
      params := Slices(updated, sizes);
      invHessian := h;
      prevParams := p;
      prevFullGradient := g;
    }
  }
}
