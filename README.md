# Timestepping core of a Stokesian Dynamics simulator, in Dafny

This project models the exact-arithmetic and bookkeeping logic of
`functions_timestepping.py`. That file advances a suspension of spheres and
dumbbells (pairs of beads joined by a spring) through one frame of a Stokes-flow
simulation. Modelled here are:

- the explicit time integrators (forward Euler and Adams-Bashforth 2), and
  the blended angular velocity that the AB2 rotation step hands to the Euler
  rotation step;
- the two safety checks that thread the shared `error` flag: the dumbbell
  length check against explosions, and the check that every pairwise
  particle size ratio is in the near-field lookup table;
- the boundary-condition bookkeeping of `generate_output_FTSUOE` for the
  modes `ufte`, `ufteu` and `duf`. Some particles have a prescribed velocity
  and the others a prescribed force. The excitation list is spliced from the
  two, and the outputs start as placeholder lists whose slices are then
  overwritten from the solved vector or from the inputs;
- the closed-form `stokes_drag_dumbbells_only` mode;
- the remaining-time estimator `calculate_time_left`, and the colour banding
  of `format_time_left`;
- the addition of the ambient linear flow (uniform velocity, rotation and
  strain) to sphere and dumbbell velocities.

All arithmetic is over exact reals. Arrays of shape `(n, 3)` are sequences of
`Vec3` (or, in the integrators, flat sequences of reals, since both rules
act entry by entry). The `['pippa', 'pippa', 'pippa']` input sentinel and the
`['chen', 'chen', 'chen']` output placeholder are the constructors `Unset` and
`Placeholder` of `BoundaryConditions.Slot`. The loops and the in-place slice
overwrites are methods with loop invariants:
`Safety.DidSomethingGoWrongWithDumbbells`,
`BoundaryConditions.OverwriteSlices` and the two `BackgroundFlow` methods.
Each method is proved against a specification function or states its result
outright.

Modules, one file each: `Vectors`, `Integrators`, `Safety`, `SizeRatios`,
`BoundaryConditions`, `SolveModes`, `StokesDrag`, `TimeLeft`,
`BackgroundFlow`.

The linear solve, the matrix reorderings and
`deconstruct_velocity_vector_for_fts` are outside the model. Their combined
result, the solved vector split into its blocks (`SolveModes.Solution`), is an
arbitrary input. `construct_force_vector_from_fts` is modelled by its only
observable effect here: it fails, and `throw_error` is raised
(`SolveError.MissingInput`), when an entry of an excitation list is not a
vector. The source also hands it `Ta_in` and `Ea_in`, which the model does not
represent, so every "succeeds exactly when" statement below assumes those two
lists are complete.

The source slices at the count of non-sentinel entries, which silently
assumes that the fixed-velocity particles form a prefix. The model does not
make that a precondition. `BoundaryConditions.ExcitationCompleteIff` shows
that when the prefix assumption fails, a sentinel always lands in the
excitation list, so the source takes its error path.

## Model

| member | source | states |
|---|---|---|
| Integrators.EulerStep | functions_timestepping.py:21-23 | every entry of the result is `x[i] + timestep * u[i]`, and the length is kept |
| Integrators.AB2Step | functions_timestepping.py:26-28 | every entry is `x[i] + timestep * (1.5 u[i] - 0.5 u_previous[i])` |
| Integrators.Blend | functions_timestepping.py:138 | the combined angular velocity is `1.5 Oa_out[i] - 0.5 Oa_out_previous[i]` entry by entry |
| Integrators.AB2IsEulerOfBlend | functions_timestepping.py:136-141 | an AB2 step is an Euler step with the blended rate, the identity the AB2 rotation step relies on |
| Integrators.AB2SteadyIsEuler | functions_timestepping.py:21-28 | with `u_previous == u` the AB2 step equals the Euler step |
| Integrators.EulerStepsCompose | functions_timestepping.py:21-23 | two Euler steps of `dt1` and `dt2` with the same rate make one step of `dt1 + dt2` |
| Integrators.EulerZeroStep | functions_timestepping.py:21-23 | a zero timestep leaves the positions unchanged |
| Safety.DidSomethingGoWrongWithDumbbells | functions_timestepping.py:47-61 | the flag is never cleared; with protection off it is returned unchanged; with protection on it is set iff the flag was set or some new dumbbell has length above 5 (squared length above 25) |
| SizeRatios.Reciprocals | functions_timestepping.py:148 | each entry of `1 / lam_range` times its table entry is 1 |
| SizeRatios.RowOffenders | functions_timestepping.py:147-152 | every entry is an uncovered pair of the given row from the given column on, and the columns strictly increase |
| SizeRatios.Offenders | functions_timestepping.py:147-152 | every entry is an uncovered pair from the given row down, and the entries strictly increase in row-major order, so none is listed twice |
| SizeRatios.RowOffendersExact | functions_timestepping.py:147-152 | one row of the `np.where` result holds exactly the uncovered pairs of that row from the given column on |
| SizeRatios.OffendersExact | functions_timestepping.py:147-152 | `np.where(do_we_have_it_matrix == 0)` holds exactly the pairs (i, j) whose ratio `sizes[j] / sizes[i]` is in neither the table nor its reciprocals |
| SizeRatios.OffendersNonEmptyIff | functions_timestepping.py:152-153 | the offender list is non-empty iff some pair, a particle with itself included, has an uncovered ratio |
| SizeRatios.DoWeHaveAllSizeRatios | functions_timestepping.py:144-170 | returns true iff the incoming flag was set or some pairwise ratio is uncovered; otherwise returns the incoming flag unchanged. With a single offending pair the source instead raises an IndexError at line 154; the model returns the intended `true` there |
| SizeRatios.Label | functions_timestepping.py:156-161 | indices below `num_spheres` name spheres, the others name dumbbells counted from 0 |
| SizeRatios.FirstOffender | functions_timestepping.py:152-154 | the reported pair is uncovered and comes first in row-major order among all uncovered pairs |
| SizeRatios.OffenderReport | functions_timestepping.py:154-167 | the intended report names the first offending pair, and its ratio is not in the table or its reciprocals |
| SizeRatios.OffenderReportAsWritten | functions_timestepping.py:153-161 | the report as written exists iff there are at least two offending pairs; its first label is the intended one, its second label names the row of the second offending pair, and its ratio is `sizes[b] / sizes[a]` for the rows a and b of the first two offending pairs |
| SizeRatios.AsWrittenReportNamesCoveredRatio | functions_timestepping.py:154-161 | for sizes 1, 3, 5 and table [1], the report as written names sphere 0 against sphere 0 with ratio 1, a covered ratio |
| SizeRatios.AsWrittenReportOverrunsSingleOffender | functions_timestepping.py:156-161 | with a single offending pair, the report as written indexes past the end of the row list |
| BoundaryConditions.Splice | functions_timestepping.py:338 | `front[0:k] + back[k:n]` has length n, takes its first k entries from `front` and the rest from `back` |
| BoundaryConditions.CountUnset | functions_timestepping.py:334 | the sentinel count is zero iff no entry is the sentinel, and the whole length iff every entry is |
| BoundaryConditions.FixedCount | functions_timestepping.py:334 | `n - count(sentinel)` is at most n; it is n iff no entry is the sentinel and 0 iff every entry is |
| BoundaryConditions.Excitation | functions_timestepping.py:336-339 | when the fixed-velocity particles come first, entry i of `Ua_in[0:k] + Fa_in[k:n]` is the particle's velocity if it has one and its force otherwise |
| BoundaryConditions.OverwriteSlices | functions_timestepping.py:353-358 | filling a placeholder list, then overwriting `[0:k]` from one list and `[k:n]` from the other, yields exactly the splice of the two |
| BoundaryConditions.PrescribedExactlyBelowFixedCount | functions_timestepping.py:334 | when the fixed-velocity particles come first, particle i has a prescribed velocity iff i is below `n - count(sentinel)` |
| BoundaryConditions.ExcitationCompleteIff | functions_timestepping.py:334-341 | the excitation list `Ua_in[0:k] + Fa_in[k:n]` has no sentinel iff the fixed-velocity particles come first and every other particle has a force |
| BoundaryConditions.MergeFollowsPartition | functions_timestepping.py:353-358 | after the merge, a fixed-velocity particle keeps its velocity and takes its force from the solve; a free particle keeps its force and takes its velocity from the solve |
| BoundaryConditions.Merge | functions_timestepping.py:353-358 | the first k particles keep their input velocity and take their force from the solve; the others keep their input force and take their velocity from the solve |
| BoundaryConditions.MergeAllGiven | functions_timestepping.py:353-358 | with a complete excitation list no placeholder and no sentinel survives the merge |
| SolveModes.UfteOutputsCorrect | functions_timestepping.py:333-359 | `ufte` succeeds iff the spheres' excitation list and the dumbbell forces are complete; then every output is numeric, has the right length and follows each sphere's group, and the dumbbell forces pass through |
| SolveModes.UfteExtractionLosesOutputs | functions_timestepping.py:347-368 | with the wall-force flag set and complete inputs, the branch as written fails at the `reshape` of line 368 and returns no outputs, while the intended branch returns them |
| SolveModes.UfteOutputs | functions_timestepping.py:333-359 | fails only with `MissingInput`, and succeeds iff the sphere excitation list and the dumbbell forces are complete; then the dumbbell forces pass through and the angular and dumbbell velocities come from the solve |
| SolveModes.UfteOutputsAsWritten | functions_timestepping.py:333-368 | without the wall-force flag it is the intended branch; with the flag it always fails, and for complete inputs with the float `reshape` error of line 368 |
| SolveModes.SolveUfte | functions_timestepping.py:333-359 | the step-by-step branch (check, then placeholder lists overwritten slice by slice) returns exactly the `ufte` outputs |
| SolveModes.DumbbellExcitationIff | functions_timestepping.py:372-381 | both dumbbell excitation lists, split at the count taken from `Ub_in`, are complete iff the fixed dumbbells come first, the free ones have both forces and the fixed ones have their half velocity difference |
| SolveModes.SplitPairCompleteIff | functions_timestepping.py:376-377 | with the fixed dumbbells first, `HalfDUb_in[0:k] + DFb_in[k:n]` is complete iff each fixed dumbbell has its half velocity difference and each free one its force difference |
| SolveModes.UfteuOutputsCorrect | functions_timestepping.py:370-413 | `ufteu` succeeds iff both populations satisfy the prefix and completeness conditions; then every output is numeric, every sphere's force and velocity follow its group, and every dumbbell's four outputs follow its group |
| SolveModes.UfteuOutputs | functions_timestepping.py:370-413 | fails only with `MissingInput`, and succeeds iff all three excitation lists are complete; then the angular velocities come from the solve and every output has its population's length |
| SolveModes.SolveUfteu | functions_timestepping.py:370-413 | the step-by-step branch returns exactly the `ufteu` outputs |
| SolveModes.DufOutputsCorrect | functions_timestepping.py:417-444 | `duf` succeeds iff the sphere forces are given and the dumbbells satisfy the `ufteu` conditions; then every output is numeric, the sphere forces pass through, the sphere velocities are empty, and every dumbbell's four outputs follow its group |
| SolveModes.DufOutputs | functions_timestepping.py:417-444 | fails only with `MissingInput`, and succeeds iff the dumbbell excitation lists and the sphere forces are complete; then the sphere forces pass through and the sphere velocity outputs are empty |
| SolveModes.SolveDuf | functions_timestepping.py:417-444 | the step-by-step branch returns exactly the `duf` outputs |
| StokesDrag.BeadForces | functions_timestepping.py:249-250 | the two bead forces of a dumbbell add up to its force `Fb` and differ by its force difference `DFb` |
| StokesDrag.BeadVelocities | functions_timestepping.py:251-253 | each bead's drag `mu a` times its velocity equals its force |
| StokesDrag.MeanAndHalfDifference | functions_timestepping.py:258-259 | with the integer half, a dumbbell's velocity plus its half velocity difference is its first bead's velocity, and minus it the second bead's |
| StokesDrag.StokesDragOutputs | functions_timestepping.py:247-260 | succeeds iff the dumbbell forces are numeric and a dumbbell size exists; fails with `NonNumericForce` iff a force is not numeric; `Fa_out`, `Ua_out` and `Oa_out` are copies of `Fa_in`, and the dumbbell forces pass through |
| StokesDrag.StokesDragOutputsAsWritten | functions_timestepping.py:247-260 | always fails, and with the float slice index error exactly when the forces are numeric and a dumbbell size exists |
| StokesDrag.StokesDragAsWrittenNeverSucceeds | functions_timestepping.py:254-259 | the branch as written fails on every input, while the branch with the integer half succeeds whenever the forces are numeric and a dumbbell size exists |
| StokesDrag.StokesDragClosedForm | functions_timestepping.py:247-260 | for every dumbbell `Ub_out[i] = Fb[i] / (2 mu a)` and `HalfDUb_out[i] = DFb[i] / (2 mu a)`, and each bead moves with its own force over the drag `mu a`; the forces pass through |
| StokesDrag.StokesDragDumbbell | functions_timestepping.py:249-259 | the closed form for a single dumbbell |
| StokesDrag.DumbbellFromBeads | functions_timestepping.py:258-259 | the mean of the two bead velocities is `F / (2 drag)`, half their difference is `DF / (2 drag)`, and sum and difference give back the bead velocities |
| TimeLeft.LongTimeAverage | functions_timestepping.py:504-519 | the compilation flag is `<` iff the JIT is on and exactly one long time exists, and is otherwise empty; with no long time the average is 0, with one it is that time |
| TimeLeft.CompilationTimeLeftOut | functions_timestepping.py:504-519 | with the JIT on and at least two long times, the first (compilation) time does not affect the average; with the JIT off a larger first time gives a larger average |
| TimeLeft.ShortTimeAverage | functions_timestepping.py:523-526 | with no short frame timed, the short average is the long average |
| TimeLeft.LongTimes | functions_timestepping.py:501-502 | from a frame after the run's first, the long list is as long as `CountMultiples` says for its range |
| TimeLeft.ShortTimes | functions_timestepping.py:521-522 | from a frame after the run's first, the short list is as long as `CountNonMultiples` says for its range |
| TimeLeft.CountMultiples | functions_timestepping.py:527-528 | the number of remaining long frames is at most the number of remaining frames |
| TimeLeft.CountNonMultiples | functions_timestepping.py:527-530 | the remaining short and long counts add up to `max(0, num_frames - frameno - 1)` |
| TimeLeft.LongCount | functions_timestepping.py:501-502 | the number of long frames in a range is at most the range's length |
| TimeLeft.LongTimesExact | functions_timestepping.py:501-502 | the long list has one entry per frame `i` of `range(start, frameno + 1)` with `i % invert_m_every == 0 or i == start`, namely `times[i]`, in frame order |
| TimeLeft.ShortTimesExact | functions_timestepping.py:521-522 | the short list has one entry per frame `i` of the range with `i % invert_m_every != 0 and i != start`, namely `times[i]`, in frame order |
| TimeLeft.CountMultiplesCard | functions_timestepping.py:527-528 | `numberoflongtimesleft` is the number of multiples of `invert_m_every` in `range(frameno + 1, num_frames)` |
| TimeLeft.CountNonMultiplesCard | functions_timestepping.py:529-530 | `numberofshorttimesleft` is the number of non-multiples of `invert_m_every` in `range(frameno + 1, num_frames)` |
| TimeLeft.NonNegativeParts | functions_timestepping.py:501-522 | with non-negative frame times, both the long and the short lists are non-negative |
| TimeLeft.CalculateTimeLeft | functions_timestepping.py:485-546 | with non-negative frame times the estimate is non-negative; the flags are at most two `<` characters |
| TimeLeft.FramesPartitioned | functions_timestepping.py:501-522 | the long and short times together are exactly the timed frames `[start, frameno]`, and their counts sum to `frameno - start + 1` |
| TimeLeft.StartFrameIsLong | functions_timestepping.py:501-502 | the run's first frame is always long, and its time heads the long list |
| TimeLeft.AveragesNonNegative | functions_timestepping.py:504-526 | with non-negative times both averages are non-negative |
| TimeLeft.NoMultiplesIff | functions_timestepping.py:527-528 | no remaining long frame iff no remaining frame is a multiple of `invert_m_every` |
| TimeLeft.SomeNonMultipleIff | functions_timestepping.py:529-530 | some remaining short frame iff some remaining frame is not a multiple of `invert_m_every` |
| TimeLeft.FlagsMeaning | functions_timestepping.py:504-544 | the flags are `<` when the JIT is on and no frame after the first was long, followed by `<` when this is the run's first frame and short frames remain |
| TimeLeft.NoShortTimesIff | functions_timestepping.py:521-522 | the short list is empty iff every timed frame is long |
| TimeLeft.ShortAverageFallsBack | functions_timestepping.py:523-533 | while no short frame has been timed, the short average falls back to the long one, and the estimate is `1.03 * longtimeaverage` per remaining frame |
| TimeLeft.UniformAverages | functions_timestepping.py:504-526 | when every frame takes the same time t, both averages are t, with or without the JIT |
| TimeLeft.UniformTimesEstimate | functions_timestepping.py:527-533 | when every frame takes the same time t, the estimate is `1.03 t` per remaining frame |
| TimeLeft.Band | functions_timestepping.py:551-560 | band 0 up to 600 s, band 1 above 600 s up to 3600 s, band 2 above 3600 s up to 18000 s, band 3 above 18000 s up to 86400 s, and band 4 above 86400 s |
| TimeLeft.BandsOrdered | functions_timestepping.py:551-560 | a longer estimate never lands in an earlier band, and different bands have different colours |
| TimeLeft.FormatTimeLeft | functions_timestepping.py:563-566 | the text is the band's colour code, then the flags and the formatted time, then the reset code |
| BackgroundFlow.AddBackgroundFlowSpheres | functions_timestepping.py:609-627 | each sphere's velocity gains the ambient velocity `U + O x (x - c) + E_i . (x - c)` at its centre, and its angular velocity gains `O` |
| BackgroundFlow.AddBackgroundFlowDumbbells | functions_timestepping.py:630-653 | each dumbbell's velocity gains the ambient velocity at its centre, using `Ea[0]`; its half velocity difference gains half the ambient change across `deltax` |
| BackgroundFlow.AmbientVelocity | functions_timestepping.py:614-624 | the ambient velocity at x is the uniform velocity plus the ambient change across the displacement from the flow centre |
| BackgroundFlow.AmbientAlong | functions_timestepping.py:636-651 | the ambient velocity changes by `O x d + E . d` along a displacement d |
| BackgroundFlow.DumbbellBeadsFollowAmbientFlow | functions_timestepping.py:646-651 | with beads at `x +- deltax/2` and bead velocities `Ub +- HalfDUb`, each bead gains exactly the ambient velocity at its own position |
| BackgroundFlow.AmbientAtCentre | functions_timestepping.py:614-624 | a sphere at the flow centre gains only the uniform velocity |

## Left out

- The orientation update of `euler_timestep_rotation` and `ab2_timestep_rotation` (lines 64-127) is not modelled. It needs `arccos`, `atan2`, sines and cosines, which have no exact statement over the reals. Only the blended angular velocity (line 138) is modelled.
- `wrap_around` is not modelled. It needs a matrix inverse, a floating-point `np.mod` and `shear_basis_vectors`, which is not part of this model.
- The `fts` and `fte` modes, the periodic and non-periodic matrix generation, and every linear solve or matrix inverse are left out. These are foreign calls; the solved vector is an input.
- The wall-force extraction (lines 361-368) is left out: it reads a matrix inverse. Only its failure is kept: `reshape` at line 368 receives `len(...)/3`, a float in Python 3, and raises. `SolveModes.UfteOutputsAsWritten` returns this as the `FloatReshape` error. If that line were fixed, the outputs read at line 446 would still be unassigned in that branch.
- `input_ftsuoe`, `construct_force_vector_from_fts` and `throw_error` are external. Their effect on the modelled branches is the `MissingInput` error.
- Torques, strain rates and stresslets (`Ta`, `Ea`, `Sa`) are passed through or solved without any partition, and are not represented in `SolveModes.Outputs`.
- SolveModes.UfteOutputs, SolveModes.UfteuOutputs and SolveModes.DufOutputs: the "succeeds iff" contracts hold only when `Ta_in` and `Ea_in` are complete. With a sentinel in either, `construct_force_vector_from_fts` fails in the source (lines 336-339, 374-379 and 420-423) while the model returns `Ok`.
- The angle check on line 48 of `did_something_go_wrong_with_dumbells` only prints and needs `arccos`. So `DidSomethingGoWrongWithDumbbells` takes no old displacements.
- `are_some_of_the_particles_too_close` is not modelled. It returns its `error` argument unchanged (line 207); the rest is printing.
- `format_finish_time` reads the wall clock. `format_elapsed_time` is outside this model, and its text is a parameter of `FormatTimeLeft`.
- All printing, timing with `time.time()`, and the `numba.config.DISABLE_JIT` lookup (a parameter here) are left out.
- Floating-point rounding, infinities and NaN are not modelled. Division by zero is excluded: sizes and table entries are non-zero (`SizeRatios.NonZero`), and the drag `mu * a` is non-zero (`StokesDrag.DragDefined`).
- Safety.DidSomethingGoWrongWithDumbbells: the length test `norm > 5` is stated on squared lengths (`> 25`). For non-negative lengths the two are equivalent, and there is no square root over the reals to state it directly.
- TimeLeft.CalculateTimeLeft: requires `invert_m_every > 0`. With 0 the source raises a ZeroDivisionError at line 502 whenever a frame has been timed, and at lines 528 and 530 whenever frames remain.
- TimeLeft.CalculateTimeLeft: requires `frameno < len(times)` once the run has started. Otherwise the source raises an IndexError at line 501.
- TimeLeft.LongTimes: its own contract gives only the length. Which times the list holds, and in which order, is stated by `LongTimesExact`.
- TimeLeft.ShortTimes: its own contract gives only the length. Which times the list holds, and in which order, is stated by `ShortTimesExact`.
- TimeLeft.CountMultiples: its own contract gives only a bound. That it counts exactly the multiples is stated by `CountMultiplesCard`.
- BackgroundFlow.AddBackgroundFlowSpheres: requires at least as many strain-rate rows as spheres. With fewer, the source raises an IndexError at line 618.
- BackgroundFlow.AddBackgroundFlowDumbbells: requires a strain-rate row when there are dumbbells. Without one, the source raises an IndexError at line 642.
- TimeLeft.CalculateTimeLeft: the source computes `sum / len` over floats, with an integer `0` where an average is missing. The model uses exact real division and `0.0`.

## Findings

| source | as written | input that shows it | evidently intended | confidence | as-written member | corrected member |
|---|---|---|---|---|---|---|
| functions_timestepping.py:258-259 | slices `Ubeads` with `Nbeads/2`, a float in Python 3, which raises a TypeError | any input with numeric dumbbell forces and at least one dumbbell | slice at the integer half `Nbeads // 2`, giving `Ub = Fb / (2 mu a)` and `HalfDUb = DFb / (2 mu a)` | high; not executed | StokesDrag.StokesDragOutputsAsWritten | StokesDrag.StokesDragOutputs |
| functions_timestepping.py:347-368 | in `ufte` with `extract_force_on_wall_due_to_dumbbells` set, the branch first fails at line 368, where `reshape` receives the float `len(...)/3`; the merge also runs only in the `else` branch, so `Fa_out`, `Ua_out`, `Oa_out` and the rest would be unassigned at line 446 | any complete `ufte` input with the flag set | integer division at line 368, and the outputs merged in both branches | high; not executed | SolveModes.UfteOutputsAsWritten | SolveModes.UfteOutputs |
| functions_timestepping.py:154-161 | the ratio and the two labels use `offending_elements[0][0]` and `offending_elements[0][1]`, the row indices of the first two offending pairs, not the row and column of the first pair | sizes `[1, 3, 5]` with table `[1]` report sphere 0 against sphere 0 with the covered ratio 1; sizes `[1]` with table `[2]` raise an IndexError | use `offending_elements[0][0]` and `offending_elements[1][0]`, the row and column of the first offending pair | high; not executed | SizeRatios.OffenderReportAsWritten | SizeRatios.OffenderReport |
