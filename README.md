# Integer sampling of basic sets (isl_sample.c), modelled in Dafny

This project models the integer-point sampler of the isl library. Given a
basic set (a conjunction of affine equalities and inequalities over integer
variables), the sampler returns one of three answers:

- an integer point of the set, in homogeneous form `(1, x)`;
- the zero-length vector, meaning "no integer point";
- an error.

The model has three layers:

- **Helpers**: the arithmetic helpers of the sampler (`zero_sample`,
  `interval_sample`, `independent_bounds`, the unit-row loop of the skew,
  `shift_cone`/`vec_sum_of_neg`, `vec_concat`, `plug_in`,
  `drop_constraints_involving`, `round_up_in_cone`, `isl_basic_set_from_vec`)
  over rows `seq<int>`. Index 0 of a row holds the constant, and index 0 of a
  point holds its denominator.
- **Search**: the depth-first branch-and-bound search `isl_tab_sample`, as
  an imperative state machine. It uses arrays `min`, `max` and `snap`, the
  `level`/`init`/`reduced` variables and the global `ctx->opt` options
  object. It runs over an abstract tableau: an LP oracle that minimises a
  basis direction under fixed values, reports the vertex it reached, and
  reduces the basis.
- **Dispatch**: `sample_eq`, `sample_bounded`, `sample_with_cone`,
  `gbr_sample`, `pip_sample`, `basic_set_sample`, `isl_basic_map_sample` and
  `isl_map_sample`. These are methods on a `BasicSet` object whose cached
  sample, empty flag and inequality order they update in place.

The external services are fields of an `Engine` value. Each service has a
contract stated as a ghost predicate, bundled in `EngineSound`. The services
are:

- Hermite normal form, equality elimination, recession cone, simplification
  and projection;
- rational sampling, the tableau and the PIP solver.

The main results:

- **Soundness**: every non-empty answer is an integer point of the input
  set. For a set whose trivially false constraints are normalised
  (`Finalized`) and whose cached sample, if any, has denominator 1
  (`CacheIntegral`), this covers every dispatch path.
- **Completeness of the empty answer**: the zero-length vector is only
  returned for sets without integer points, provided the set's EMPTY flag
  is trustworthy (`FlagSound`). For the GBR paths with a recession cone,
  this is proved for sets without equalities.
- **The search**: exhausting all levels proves that the set has no integer
  point; at most one basis reduction happens per level in a row; under
  `ISL_GBR_NEVER` no reduction happens and under `ISL_GBR_ONCE` at most
  one; the level stays in `[0, dim-1-n_unbounded]`; the `gbr` option is
  restored on every exit. With unbounded directions the answer is
  `T ceil(B x)`: denominator 1, and its image under the basis `B` is the
  image of the vertex `x` rounded up.

## Model

| member | source | states |
|---|---|---|
| BasicSets.ZeroSample | isl_sample.c:24-37 | the point has size 1+dim, denominator 1 and all coordinates 0 |
| BasicSets.ZeroDimSample | isl_sample.c:24-37 | for a normalised, non-empty zero-dimensional set, (1) is an integer point of the set |
| Interval.Candidate | isl_sample.c:70-74 | the candidate has denominator 1 and makes the first inequality tight when its coefficient is 1 or -1 |
| Interval.IntervalValue | isl_sample.c:48-85 | a non-empty answer is a point of size 2 with denominator 1; a non-empty set with an equality never gives the empty answer |
| Interval.IntervalSample | isl_sample.c:48-88 | the method computes the case analysis of IntervalValue: empty flag, zero sample, root of the ±1 equality, error otherwise, then the candidate checked against the remaining inequalities |
| Interval.IntervalSound | isl_sample.c:56-88 | a non-empty answer is an integer point of the set |
| Interval.IntervalComplete | isl_sample.c:70-85 | on a simplified one-dimensional set with a trustworthy flag, the empty answer means no integer point |
| Sampler.SimplifiedInterval | isl_sample.c:39-93 | after isl_basic_set_simplify, a non-empty answer is an integer point and the empty answer (with a trustworthy flag) means none exists |
| Bounds.EliminateLead | isl_sample.c:139-142 | eliminating the shared first non-zero position with an earlier working row moves the row's first non-zero position strictly right or makes it zero; the row stays a positive multiple of the normal plus a combination of the working rows |
| Bounds.ReduceRow | isl_sample.c:128-146 | the reduced row is a positive multiple of the normal plus a combination of the working rows; pos is its first non-zero position (-1 when zero), and i is the insertion index: every row before i leads at a smaller position and row i at a larger one |
| Bounds.InsertRow | isl_sample.c:147-153 | rows i..n-1 move down by one and the new row lands at position i; rows after n are unchanged |
| Bounds.InsertKeepsTriangular | isl_sample.c:132-154 | inserting a row between smaller and larger leading positions keeps the rows strictly triangular |
| Bounds.PlaceNormal | isl_sample.c:124-154 | the normal of inequality j is reduced against dirs[..n]; it is taken exactly when the result is non-zero; a zero result is left at position n with every other row unchanged, a non-zero one is inserted at the position its first non-zero entry belongs |
| Bounds.OuterPlaced | isl_sample.c:122-158 | one round keeps the outer loop's invariant: the picked inequalities in increasing order starting with the first, the working rows a sorted permutation of the reduced normals, each reduced row a positive multiple of its normal plus earlier reduced rows, spanned by the picked normals, not in the rational span of the earlier reduced rows, and every visited normal in the rational span of the picked ones |
| Bounds.PlaceAll | isl_sample.c:122-158 | the outer loop keeps its invariant and ends with dim rows placed or every inequality visited |
| Bounds.NormalsIndependent | isl_sample.c:122-158 | when the first normal is non-zero, the picked normals are linearly independent, because no reduced row is a rational combination of the rows reduced before it |
| Bounds.OuterDone | isl_sample.c:157-159 | the state the outer loop ends in gives everything independent_bounds promises: independence, maximality and the working rows that witness them |
| Bounds.IndependentBounds | isl_sample.c:95-160 | row 0 is (1,0,...,0); at most 1+dim rows; every later row copies an inequality, in strictly increasing index order, starting with the first one; when the first normal is non-zero the normals of the bounds are linearly independent; when fewer than dim are picked every inequality's normal is a rational combination of them; the final working rows are triangular, spanned by those normals and span a multiple of each |
| Spans.AffineIndependent | isl_sample.c:110-112 | bounds whose first row is (1,0,...,0) and whose other rows have independent normals are independent as rows, constant column included |
| BasicSets.UnitRowMeaning | isl_sample.c:203-210 | a row is a unit row exactly when one variable coefficient is non-zero |
| BasicSets.Swap | isl_sample.c:162-167 | rows i and j are exchanged, all others kept, and the multiset of rows is unchanged |
| BasicSets.UnitRowsFirst | isl_sample.c:203-213 | the result is a permutation of the inequalities; the unit rows come first, in their original order; no row after them is a unit row |
| BasicSets.BasicSet.MoveUnitRowsUp | isl_sample.c:203-213 | the skew loop permutes the inequalities in place, unit rows first in their original order, and leaves the equalities, flag and cache alone |
| Oracles.HermiteKeepsConstant | isl_sample.c:217-218 | a matrix whose first row is (1,0,...,0) keeps (1,0,...,0) as the first row of its Hermite multiplier |
| Sampler.SkewKeepsConstant | isl_sample.c:217-221 | dropping the last columns of the Hermite multiplier keeps (1,0,...,0) as the first row |
| Sampler.SkewedRow | isl_sample.c:217-221 | picked inequality i, rewritten by the multiplier with its last columns dropped, involves only the first i+1 variables; when the bounds up to it are independent its diagonal entry is positive and every entry left of it lies in (-d, 0] |
| Sampler.SkewOrthant | isl_sample.c:214-221 | the rewritten inequalities are skewed (lower triangular on the picked rows) and, when the first normal is non-zero, in positive-orthant form; the multiplier keeps the constant |
| Sampler.SkewTransform | isl_sample.c:214-221 | with a sound Hermite oracle (called with neg set), any answer is a multiplier T with first row (1,0,...,0) and k columns of variables under which the inequalities are skewed, and in positive-orthant form when the first normal is non-zero |
| Sampler.SkewToPositiveOrthant | isl_sample.c:169-233 | only a set without equalities gives an answer; the inequalities are only permuted in place; the answer is a matrix T with first row (1,0,...,0) and Q, the preimage of the set under T, whose picked inequalities are lower triangular and, when the first normal is non-zero, have a positive diagonal and entries in (-d, 0] left of it |
| Sampler.PipSampleSound | isl_sample.c:1083-1086 | an integer point of the skewed set, mapped through T, is an integer point of the original set despite the reordering |
| Sampler.PipSample | isl_sample.c:1072-1091 | a non-empty answer is an integer point of the set; the inequalities are only permuted |
| Cone.SumOfNegIsLeast | isl_sample.c:923-932 | the sum of the negative entries of a is the least value of a·z over 0/1 vectors z |
| Cone.SumOfNegAttained | isl_sample.c:923-932 | the least value is attained at the indicator vector of the negative entries |
| Cone.VecSumOfNeg | isl_sample.c:923-932 | the loop computes the sum of the negative entries |
| Cone.ShiftCone | isl_sample.c:695-740 | the error occurs exactly when the cone has equalities; otherwise the answer is the shifted cone: no equalities, one row per cone inequality with the same variable coefficients |
| Cone.ShiftRowRounding | isl_sample.c:662-728 | rounding up a rational point of one shifted constraint gives x with a·x >= ceil(a·v/d), hence d·(a·x) >= a·v |
| Cone.ShiftConeRounding | isl_sample.c:662-693 | rounding up any rational point of the shifted cone gives x with d·(a·x) >= a·v for every cone inequality a |
| Cone.VecConcat | isl_sample.c:787-813 | it fails unless both inputs are non-empty with denominator 1; the result has size \|v1\|+\|v2\|-1, equals v1 on its prefix and v2 without its leading 1 after it |
| Cone.PlugInMatVec | isl_sample.c:609-640 | T·x = x[0]·s followed by the remaining coordinates of x |
| Cone.PlugInContains | isl_sample.c:609-640 | (1, x') lies in the plugged-in set exactly when (s, x') lies in the original set |
| BasicSets.KeptExactly | isl_sample.c:818-835 | a row survives exactly when it is an inequality that does not involve the dropped variables |
| BasicSets.DropAt | isl_sample.c:831 | dropping row pos (isl_basic_set_drop_inequality) keeps the rows before pos and leaves a permutation of the rows after it in its place |
| BasicSets.DropRowsInvolving | isl_sample.c:828-832 | the backward loop leaves a permutation of the kept rows |
| BasicSets.BasicSet.DropConstraintsInvolving | isl_sample.c:818-835 | the inequalities become a permutation of the kept rows; the equalities, flag and cache are unchanged |
| BasicSets.FromVecExactly | isl_sample.c:1171-1178 | the points of the set built from v are exactly those w with v0·w_j = v_j·w0 for every coordinate, i.e. the multiples of v |
| BasicSets.FromVecContainsVec | isl_sample.c:1171-1179 | v satisfies every equality built from it |
| BasicSets.FromVec | isl_sample.c:1154-1186 | an empty vector is an error; otherwise a fresh set of dimension \|v\|-1 with one equality per coordinate, no inequalities, not empty, and v as its cached sample, which it contains |
| TabSearch.ReduceBasis | isl_sample.c:464-476 | ISL_GBR_ONCE becomes ISL_GBR_NEVER, the other options are unchanged, and the result is the oracle's reduction, which may stop after the first direction exactly when gbr is ALWAYS (gbr_only_first is set to that for the call and restored afterwards) |
| TabSearch.EnterLevel | isl_sample.c:441-479 | it stops at an integral vertex, reduces the basis at most once in a row (keeping the invariant for the new basis), or records the range [min, max] and its emptiness; a reduction happens only when gbr was not NEVER and leaves it other than ONCE; the options change only by ONCE becoming NEVER on a reduction |
| TabSearch.Increment | isl_sample.c:480-481 | min[level] goes up by one and nothing else changes |
| TabSearch.Advance | isl_sample.c:483-499 | an empty or exhausted range backtracks, otherwise the basis row is fixed at min; either the search stops at a vertex that satisfies the added equalities (integral when nothing is unbounded) or the search invariant holds at the new level |
| TabSearch.Backtracked | isl_sample.c:483-489 | leaving level 0 proves there is no integer point; leaving a higher level re-establishes the invariant one level up |
| TabSearch.ReduceKeeps | isl_sample.c:464-476 | basis reduction keeps the invariant and the equalities fixed so far |
| TabSearch.FixRowsMatch | isl_sample.c:491-493 | a point satisfies the added equalities exactly when it takes the chosen value on each fixed basis row |
| TabSearch.AppendEvent | isl_sample.c:370-376 | a step that is not a second reduction in a row, at a level in range, and is a reduction only while gbr is not NEVER (turning ONCE into NEVER), keeps the trace properties: no two reductions in a row, levels in range, no reduction under NEVER, at most one under ONCE |
| TabSearch.Search | isl_sample.c:437-500 | exhaustion proves there is no integer point; a stop yields a vertex that satisfies the added equalities and is integral when nothing is unbounded; no two reductions in a row; no reduction when gbr is NEVER and at most one when it is ONCE; every level within [0, dim-1-n_unbounded]; options change only by ONCE becoming NEVER |
| TabSearch.Tableau.RoundThroughBasis | isl_sample.c:416-423 | for a unimodular basis B, the answer has denominator 1 and B maps it to ceil(B v) |
| TabSearch.RoundsToItself | isl_sample.c:510 | a vertex with denominator 1 is already its own rounding, which is why the source skips the rounding then |
| TabSearch.Tableau.Sample | isl_sample.c:384-531 | the empty answer means there is no integer point; with no unbounded direction a non-empty answer is an integer point; with unbounded directions a non-empty answer is T ceil(B x) for the final basis B and the vertex x (denominator 1); no reduction under gbr NEVER and at most one under ONCE; the gbr option is restored |
| Sampler.SampleEq | isl_sample.c:242-258 | a non-empty answer is an integer point of the set; the empty answer with a trustworthy flag (and the GBR solver when recursing into basic_set_sample) means none exists |
| Sampler.SampleBounded | isl_sample.c:540-595 | the EMPTY flag is set only for sets without integer points; the cache changes only to the new sample; a non-empty answer has size 1+dim and denominator 1 and is an integer point of a normalised set; the empty answer with a trustworthy flag means none exists |
| Sampler.RowDirection | isl_sample.c:768-776 | the rounding bound of one cone row makes the move from v/d to the rounded point a direction of that row |
| Sampler.RoundedDirection | isl_sample.c:768-776 | the move from v/d to the rounded point is a direction of the (projected, transformed) cone |
| Sampler.LiftDirection | isl_sample.c:768-770 | a direction of the projection of the transformed cone, padded with zero bounded coordinates, is a direction of the transformed cone |
| Sampler.RoundUpInCone | isl_sample.c:753-782 | an answer exists only for a non-empty vector; it has the same size and denominator 1, and the move from v/d to it, padded with zeros, is a direction of the transformed cone |
| Sampler.ConeDirectionInSet | isl_sample.c:874-916 | a direction of the transformed cone is a direction of the transformed set |
| Sampler.ConeSampleSound | isl_sample.c:911-915 | the bounded sample concatenated with the rounded point and mapped through U is an integer point of the set |
| Sampler.ExtendSample | isl_sample.c:911-915 | any point returned after plug_in, rational_sample, round_up_in_cone, vec_concat and the product with U is an integer point of the set |
| Sampler.ProjectedPoint | isl_sample.c:901-903 | cutting a point of the transformed set to its bounded coordinates gives a point of the projection |
| Sampler.UnimodularPreimage | isl_sample.c:892-899 | every integer point of the set has an integer point with denominator 1 in the set transformed by U |
| Sampler.ProjectionComplete | isl_sample.c:901-909 | for a set without equalities, an empty projection onto the bounded variables means the set has no integer point |
| Sampler.SampleWithCone | isl_sample.c:874-921 | a non-empty answer is an integer point of the set; for a set without equalities, the empty answer with a trustworthy flag means none exists |
| Sampler.GbrSample | isl_sample.c:1056-1070 | the EMPTY flag is set only for sets without integer points; a non-empty answer has size 1+dim and is an integer point of a normalised set; for a set without equalities the empty answer with a trustworthy flag means none exists |
| Sampler.BasicSetSample | isl_sample.c:1093-1139 | the EMPTY flag is set only for sets without integer points; a cached sample that still fits is returned and kept, otherwise the cache is cleared or replaced by the new sample; a non-empty answer has size 1+dim and is an integer point of a normalised set whose cached sample has denominator 1; on the GBR path the empty answer with a trustworthy flag means none exists |
| Maps.EmptyLikeNoSample | isl_sample.c:1197-1199 | the empty-like set has no integer point |
| Maps.BasicMapSample | isl_sample.c:1188-1209 | the empty answer gives an empty-like set, and with a trustworthy flag the map has no point; otherwise the result is the set of multiples of the sample, with the sample cached and an integer point of a normalised map whose cached sample has denominator 1 |
| Maps.MapSample | isl_sample.c:1211-1234 | the result is the first non-empty sample, returned as the basic set of the multiples of its sample (the from_vec set, which holds exactly one integer point); every disjunct before it has no integer point (GBR path, trustworthy flags); if all are empty the result is empty-like; the sample is an integer point of its disjunct when that disjunct is normalised and its cached sample has denominator 1 |

## Left out

- The tableau itself is abstract. This covers `isl_tab_min`, `isl_tab_add_valid_eq`, snapshots and rollback, `isl_tab_get_sample_value`, `isl_tab_detect_implicit_equalities`, `initial_basis`, `tab_equalities` and basis reduction: an LP oracle with a soundness contract takes their place. Its contract makes every basis unimodular and `isl_mat_vec_inverse_product` return the integer preimage under the basis when one exists.
- `tab_shift_cone` and `isl_tab_set_initial_basis_with_cone`, including the count `n_unbounded = n_var - (rows - n_zero)` at isl_sample.c:1037, are not modelled: the tableau takes `n_unbounded` as a parameter.
- Hermite normal form, `isl_basic_set_remove_equalities`, `isl_basic_set_recession_cone`, `isl_basic_set_simplify`, `isl_basic_set_remove_dims`, `rational_sample` and the PIP solver are oracles with contracts. Their implementations are not part of this model. The Hermite oracle's contract states unimodularity, lower triangularity, a positive diagonal on independent prefixes, and the reduction of the entries left of the diagonal into [0, d) or, with `neg`, into (-d, 0]. It does not state the uniqueness of the Hermite form.
- `isl_basic_set_preimage` is exact substitution of rows. The normalisation isl applies afterwards (gcd reduction, removal of redundant rows) is not modelled, and neither is `isl_basic_set_finalize` after `shift_cone`.
- `TabSearch.Tableau.Sample`: with unbounded directions, the rounded point `T ceil(B x)` is not claimed to lie in the set. That needs the shifted copies of the constraints that isl_sample.c:346-357 asks the caller to add, and `tab_shift_cone` is not modelled; `sample_bounded`, the model's only caller, builds its tableau with `n_unbounded = 0`.
- `TabSearch.Search`: the source loop has no termination argument Dafny can check, because its ranges come from the oracle. The model gives it a round budget (`fuel`), and running out is an error outcome.
- NULL inputs, allocation failure, reference counting and the cleanup paths are modelled as the error outcome `Fail`. So are the `isl_assert` failures, which include the parameter and div checks of `basic_set_sample`.
- Parameters and existentially quantified (div) variables of basic sets are not modelled.
- `Maps.BasicMapSample` samples a copy of the underlying set. Conversions between maps and their underlying sets are the identity here. In isl the copy shares the cached sample with the map, and that write-back is not modelled.
- `Sampler.RoundUpInCone`: a zero-length rational sample of the shifted cone is modelled as an error. In isl it would reach `isl_vec_ceil` and `vec_concat` and fail there.
- `Sampler.SampleWithCone`: the empty answer is proved complete only for sets without equalities. With equalities, the unimodular change of variables of the cone is not shown to reach every point.
- `Sampler.SampleWithCone`: the model does not prove that dropping the constraints that involve the unbounded coordinates gives the exact projection, which is the argument of isl_sample.c:851-859. So after a sample of the bounded coordinates is found, the model does not rule out an error from `rational_sample` returning the zero-length vector for the plugged-in set, where isl always finds a point. `RationalOk` does state that this vector only comes from a set without rational points.
- `Sampler.GbrSample`: the empty answer is proved complete only for sets without equalities, for the same reason.
- `Sampler.PipSample`: the empty answer of the PIP solver is not shown to be complete. The oracle's contract only states soundness of its non-empty answers.
- `Sampler.BasicSetSample`, `Maps.BasicMapSample` and `Maps.MapSample`: completeness of the empty answer is stated only when `ilp_solver` is GBR, because the PIP path is not complete in the model.
- `Bounds.IndependentBounds`: independence of the bounds is promised only when the first inequality's normal is non-zero. The source copies `ineq[0]` into the bounds without checking it (isl_sample.c:122-123), so a zero first normal leaves the bounds dependent.
- `Sampler.SkewToPositiveOrthant`: the positive-orthant form is promised only under the same condition. The model does not prove the comment's claim (isl_sample.c:177-182) that, with a lineality space, no constraint involves the dropped dimensions. Q is the exact preimage under T, so soundness does not need it, but it is what would make the PIP path complete.
- `Sampler.PipSample`, `Sampler.SkewToPositiveOrthant` and `Bounds.IndependentBounds` require that a set with inequalities has at least one variable. Their caller only reaches them with two or more variables. With no variable, independent_bounds would allocate a one-row `bounds` and an empty `dirs` and then write to `bounds->row[1]` and `dirs->row[0]` (isl_sample.c:106, 117-123), out of bounds.
- `interval_sample` takes `ineq[0]` as the candidate and checks the other inequalities against it. It does not take the tightest of several bounds. This is complete only because simplification leaves at most one bound per direction, which is what `SimplifyOk` states. The model follows the code.
- isl_schedule_constraints.c is not part of this model.
