# Quasi-Newton optimizer of neupy, modelled in Dafny

This project models the quasi-Newton training algorithm of neupy
(`neupy/algorithms/gd/quasi_newton.py`). It covers three parts.

- **The four inverse-Hessian update rules** `bfgs`, `dfp`, `psb` and `sr1`. Each maps the
  current inverse-Hessian approximation H, the parameter change s and the gradient change y
  to the next approximation. They are Dafny functions over exact `real` matrices
  (`update_rules.dfy`, built on the vector and matrix algebra in `linalg.dfy`). Lemmas prove
  symmetry, the secant equation H'·y = s, the BFGS ρ guard, the SR1 skip branch and the DFP
  clipping bound.
- **The flat parameter-vector layout** (`layout.dfy`).
  - Gradients are flattened and concatenated in parameter order.
  - A trial vector is cut back into tensors by a running offset.
  - Each (layer, attribute) slot is temporarily overridden while the network is evaluated,
    then restored.

  The slicing and override/restore loop is the method `Network.Prediction`. It works on a
  class whose field maps slots to values. Round-trip, tiling and "nothing else changes" laws
  are proved about it.
- **The optimizer state machine** (`quasi_newton.dfy`).
  - Configuration: the update function is one of four names, with default `bfgs`, and
    `h0_scale` must be at least 0, with default 1.
  - The class `Optimizer`. Its constructor builds the initial state: H = h0_scale·I, zero
    previous vectors, and n the sum of the parameter sizes.
  - `TrainStep`, one step: H is updated except at epoch 1, the direction is −H·g, the new
    parameters are p + α·d, and the new H, p and g are stored.

Arithmetic is exact over the reals. The step length α, which neupy gets from a Wolfe line
search, is an input of `TrainStep`, as are the epoch number and the per-tensor gradients.

Textbook DFP subtracts (H y)(H y)ᵀ/(yᵀHy) and so keeps a symmetric H symmetric. The code's
DFP instead multiplies its correction **elementwise** by H (`* inverse_hessian`, line 89),
not by a matrix product. The model follows the code:
- `DfpNotSymmetric` exhibits a symmetric H whose DFP update is not symmetric;
- `DfpMissesSecant` shows DFP can also miss the secant equation;
- symmetry is proved for DFP only when H is diagonal (`DfpDiagonalSymmetric`), which covers
  the first update from h0_scale·I (`FirstUpdateSymmetric`).

## Model

| member | source | states |
|---|---|---|
| UpdateRules.Rho | neupy/algorithms/gd/quasi_newton.py:63-70 | ρ·(yᵀs) = 1 when yᵀs ≠ 0; when yᵀs = 0 (1/yᵀs infinite), abs(ρ) = abs(maxrho); the sign is the input negativeZero |
| UpdateRules.Bfgs | neupy/algorithms/gd/quasi_newton.py:60-76 | the BFGS update with the guarded ρ gives an n×n matrix; its laws are symmetry (BfgsSymmetric) and the secant equation (BfgsSecant) |
| UpdateRules.BfgsSymmetric | neupy/algorithms/gd/quasi_newton.py:60-76 | for symmetric H, (I − ρ s yᵀ) H (I − ρ y sᵀ) + ρ s sᵀ is symmetric, whatever ρ the guard picks |
| UpdateRules.BfgsSecant | neupy/algorithms/gd/quasi_newton.py:60-76 | when yᵀs ≠ 0 the BFGS result H' satisfies H'·y = s |
| UpdateRules.Clip | neupy/algorithms/gd/quasi_newton.py:88-91 | like Theano's clip: an entry below lo becomes lo, an entry above hi (and not below lo) becomes hi, an entry in [lo, hi] is unchanged; for lo ≤ hi every result entry lies in [lo, hi] |
| UpdateRules.DfpNumerator | neupy/algorithms/gd/quasi_newton.py:88-91 | every entry of clip((H y) yᵀ ∘ H, −maxnum, maxnum) lies in [−maxnum, maxnum] |
| UpdateRules.Dfp | neupy/algorithms/gd/quasi_newton.py:79-95 | the DFP update H + s sᵀ/(yᵀs) − clip((H y) yᵀ ∘ H)/(yᵀHy) gives an n×n matrix when both denominators are nonzero; its laws are DfpDiagonalSymmetric, and the counterexamples DfpNotSymmetric and DfpMissesSecant |
| UpdateRules.DfpDiagonalSymmetric | neupy/algorithms/gd/quasi_newton.py:79-95 | for diagonal H the DFP result is symmetric |
| UpdateRules.DfpNotSymmetric | neupy/algorithms/gd/quasi_newton.py:79-95 | H = [[1,1],[1,2]], s = y = [1,0]: H is symmetric, both denominators are nonzero, and the DFP result is not symmetric |
| UpdateRules.DfpMissesSecant | neupy/algorithms/gd/quasi_newton.py:79-95 | H = I, s = y = [1,1]: both denominators are nonzero and the DFP result H' has H'·y ≠ s |
| UpdateRules.Psb | neupy/algorithms/gd/quasi_newton.py:98-109 | the PSB update gives an n×n matrix when yᵀy ≠ 0; its laws are symmetry (PsbSymmetric) and the secant equation (PsbSecant) |
| UpdateRules.PsbSymmetric | neupy/algorithms/gd/quasi_newton.py:98-109 | for symmetric H and yᵀy ≠ 0 the PSB result is symmetric |
| UpdateRules.PsbSecant | neupy/algorithms/gd/quasi_newton.py:98-109 | when yᵀy ≠ 0 the PSB result H' satisfies H'·y = s |
| UpdateRules.Sr1SkipTestMatchesNorms | neupy/algorithms/gd/quasi_newton.py:117-121 | abs(rᵀy) < ε‖r‖‖y‖ holds exactly when (rᵀy)² < ε²‖r‖²‖y‖² with ε ≥ 0, so the skip test needs no square root |
| UpdateRules.Sr1AsWritten | neupy/algorithms/gd/quasi_newton.py:112-124 | the code's SR1 update: an n×n matrix, or no finite result, which happens only when rᵀy = 0; Sr1AsWrittenDividesZeroByZero exhibits that case and Sr1AgreesWithWritten relates it to the corrected rule |
| UpdateRules.Sr1 | neupy/algorithms/gd/quasi_newton.py:112-124 | the corrected SR1 update gives an n×n matrix; it equals the code's result wherever the code yields a number (Sr1AgreesWithWritten), and its laws are Sr1Symmetric and Sr1Secant |
| UpdateRules.Sr1AsWrittenDividesZeroByZero | neupy/algorithms/gd/quasi_newton.py:112-124 | when s = H·y the code's skip test fails and the code divides by rᵀy = 0 (result None) |
| UpdateRules.Sr1AgreesWithWritten | neupy/algorithms/gd/quasi_newton.py:112-124 | the corrected SR1 equals the code's result wherever that is a number; the code has no number exactly when rᵀy = 0 and its own skip test fails |
| UpdateRules.Sr1Symmetric | neupy/algorithms/gd/quasi_newton.py:112-124 | for symmetric H the SR1 result is symmetric, on the skip branch and on the update branch |
| UpdateRules.Sr1Secant | neupy/algorithms/gd/quasi_newton.py:112-124 | a skipped SR1 returns exactly H; otherwise the result H' satisfies H'·y = s |
| Layout.Concat | neupy/algorithms/gd/quasi_newton.py:212 | the concatenated vector's length is the sum of the piece sizes |
| Layout.Split | neupy/algorithms/gd/quasi_newton.py:229-237 | slicing succeeds exactly when the vector has at least the total size, and then yields one piece per size |
| Layout.SlicesAt | neupy/algorithms/gd/quasi_newton.py:229-237 | piece k is the window [start_pos, start_pos + size) of the vector, where start_pos is the running offset (sum of the earlier sizes) |
| Layout.PiecesTile | neupy/algorithms/gd/quasi_newton.py:229-237 | the offsets start at 0 and end at n, each window starts where the previous one ends, and piece k has size sizes[k], so the pieces are contiguous, disjoint and cover [0, n) |
| Layout.SplitConcat | neupy/algorithms/gd/quasi_newton.py:229-237 | slicing the concatenation of pieces by their sizes gives back the pieces |
| Layout.ConcatSplit | neupy/algorithms/gd/quasi_newton.py:229-237 | concatenating the slices of a vector of exactly the total size gives back the vector |
| Layout.SplitSizes | neupy/algorithms/gd/quasi_newton.py:231-235 | the slices have exactly the requested sizes |
| Layout.Override | neupy/algorithms/gd/quasi_newton.py:230-237 | after the setattr loop the slots are the old slots plus the parameters' slots; slot contents are stated by OverrideLookup and OverrideOnlyWritesHandles |
| Layout.OverrideLookup | neupy/algorithms/gd/quasi_newton.py:230-237 | with distinct slots, after overriding, the slot of parameter k holds piece k |
| Layout.OverrideOnlyWritesHandles | neupy/algorithms/gd/quasi_newton.py:230-237 | overriding leaves every slot other than the parameters' slots as it was, and each parameter's slot ends up present |
| Layout.Restore | neupy/algorithms/gd/quasi_newton.py:241-243 | after the restore loop the slots are the old slots plus the parameters' slots; slot contents are stated by RestoreIgnoresHandles, RestoreAfterOverride and RestoreConsistent |
| Layout.RestoreIgnoresHandles | neupy/algorithms/gd/quasi_newton.py:242-243 | what the restore loop produces depends only on the slots it does not write |
| Layout.RestoreAfterOverride | neupy/algorithms/gd/quasi_newton.py:241-243 | override followed by restore has the same effect as restore alone |
| Layout.RestoreConsistent | neupy/algorithms/gd/quasi_newton.py:241-243 | when every slot held its own parameter, restoring gives back exactly the original slots |
| Layout.TrialPoint | neupy/algorithms/gd/quasi_newton.py:225 | entry i of the trial vector is p[i] + step·d[i] |
| Layout.Network.Prediction | neupy/algorithms/gd/quasi_newton.py:224-245 | the output is computed with every slot overridden by its slice of p + step·d; afterwards the slots are as restoring alone leaves them, and unchanged when each slot held its own parameter |
| QuasiNewton.ParseUpdateFunction | neupy/algorithms/gd/quasi_newton.py:172-180 | a name selects a rule exactly when it is that rule's name |
| QuasiNewton.Configure | neupy/algorithms/gd/quasi_newton.py:172-181 | configuration succeeds exactly for one of bfgs/dfp/psb/sr1 and h0_scale ≥ 0; an unknown name and a negative h0_scale are rejected with their own errors |
| QuasiNewton.DefaultsAreValid | neupy/algorithms/gd/quasi_newton.py:172-181 | the defaults (bfgs, h0_scale 1) configure BFGS with scale 1 |
| QuasiNewton.InitialInverseHessian | neupy/algorithms/gd/quasi_newton.py:187-190 | h0_scale·I is n×n, symmetric and diagonal, with h0_scale on the diagonal |
| QuasiNewton.NextInverseHessian | neupy/algorithms/gd/quasi_newton.py:214-220 | H is n×n after the step; its laws are UpdateSatisfiesSecant, StepPreservesSymmetry and FirstUpdateSymmetric |
| QuasiNewton.UpdateSatisfiesSecant | neupy/algorithms/gd/quasi_newton.py:214-220 | after epoch 1, the new H maps g − prev_g to p − prev_p (BFGS when yᵀs ≠ 0, PSB when yᵀy ≠ 0, SR1 when not skipped) |
| QuasiNewton.StepPreservesSymmetry | neupy/algorithms/gd/quasi_newton.py:214-220 | with BFGS, PSB or SR1 a symmetric H stays symmetric at every epoch |
| QuasiNewton.FirstUpdateSymmetric | neupy/algorithms/gd/quasi_newton.py:214-220 | every rule, DFP included, keeps the initial h0_scale·I symmetric on its first update |
| QuasiNewton.Direction | neupy/algorithms/gd/quasi_newton.py:221 | the direction −H·g has the length of g; its laws are InitialDirection and FirstStepIsGradientStep |
| QuasiNewton.InitialDirection | neupy/algorithms/gd/quasi_newton.py:221 | with H = h0_scale·I the direction −H·g is −h0_scale·g |
| QuasiNewton.FirstStepIsGradientStep | neupy/algorithms/gd/quasi_newton.py:254-255 | with H = I and step 1 the new parameters are p − g |
| QuasiNewton.Optimizer.constructor | neupy/algorithms/gd/quasi_newton.py:183-199 | n is the sum of the parameter sizes, H = h0_scale·I (n×n), and prev_params and prev_full_gradient are zero vectors of length n |
| QuasiNewton.Optimizer.TrainStep | neupy/algorithms/gd/quasi_newton.py:201-264 | H is kept at epoch 1 and updated by the configured rule otherwise; for SR1 this is the corrected rule, equal to the code's update wherever the code yields a number. The parameters become p + α·(−H'·g), cut back into tensors. prev_params becomes p and prev_full_gradient becomes g. The class invariant keeps the shapes and, for BFGS, PSB and SR1, the symmetry of H |

## Left out

- Floating point: rounding, overflow, infinities and NaN. Arithmetic is exact over `real`.
- UpdateRules.Rho: `T.isinf(rho)` also fires when a tiny nonzero yᵀs overflows 1/yᵀs; over the reals only yᵀs = 0 triggers the guard.
- UpdateRules.Rho: `T.sgn` of an infinite ρ depends on the sign of a floating-point zero, which reals do not have; it is the input `negativeZero`.
- UpdateRules.Dfp: the divisions by yᵀs and yᵀHy are unguarded in the code (inf/NaN on zero); the model requires both to be nonzero.
- UpdateRules.Psb: the division by yᵀy is unguarded in the code; the model requires it to be nonzero.
- QuasiNewton.Optimizer.TrainStep: the SR1 branch applies the corrected rule `Sr1` (see Findings). Where the code divides by rᵀy = 0 (r = 0 or y = 0, e.g. after a zero step from the line search), the code's H becomes non-finite (NaN or ±inf), while the model keeps H. Everywhere else the step equals the code's `Sr1AsWritten`, as its ensures states.
- Positive definiteness of the BFGS result: the code does not promise it, and proving it needs eigenvalue reasoning.
- Theano graph building, `T.grad` (lines 211 and 250-252), `self.connection.output` and `self.error`. The gradients are an input of `TrainStep`, and the network output is a function parameter of `Prediction`.
- The Wolfe line search (`line_search`, line 254): the step length is an input.
- The `phi`/`derphi` closures (lines 247-252) are not modelled beyond `Prediction`.
- `find_param_name` and `iter_layers_and_parameters` (lines 20-57): these use reflection. The slots are an explicit list of (layer, attribute) handles.
- `T.reshape` to the tensor shape: tensors are modelled as flat vectors.
- `parameters2vector` and `setup_parameter_updates`: they are not part of this model. The model assumes they use the concatenation order of line 212, so p is the concatenation of the tensors and the new parameters are the slices of p + α·d.
- The epoch counter: its increment and the training loop live in base classes. The epoch number is an input of `TrainStep`.
- Validation of the two properties happens in `ChoiceProperty`/`NumberProperty` (base classes). When both values are invalid, `Configure` reports the unknown name.

## Findings

| source | as written | input that shows it | evidently intended | confidence | as-written member | corrected member |
|---|---|---|---|---|---|---|
| neupy/algorithms/gd/quasi_newton.py:117-123 | the skip test abs(rᵀy) < ε‖r‖‖y‖ is strict. When H already satisfies the secant equation (s = H·y), r = 0, the test reads 0 < 0 and fails, and the update divides r rᵀ = 0 by rᵀy = 0 | H = [[1]], s = y = [1] (r = 0): every entry of the result is 0/0 | leave H unchanged whenever rᵀy = 0, since no rank-1 correction is needed or possible | not executed; medium | UpdateRules.Sr1AsWrittenDividesZeroByZero | UpdateRules.Sr1Secant |
