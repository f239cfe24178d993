/** The `ufte`, `ufteu` and `duf` branches of `generate_output_FTSUOE`: which
    inputs go into the excitation list, and which output comes from the
    solved vector and which from the inputs. Torques, strain rates and
    stresslets are passed through or solved without any partition and are not
    represented. */
module SolveModes {
  import opened Vectors
  import opened BoundaryConditions

  /** The per-particle inputs a mode may partition: sphere forces and
      velocities, dumbbell forces, velocities, force differences and half
      velocity differences. */
  datatype Inputs = Inputs(Fa: seq<Slot>, Ua: seq<Slot>,
                           Fb: seq<Slot>, Ub: seq<Slot>, DFb: seq<Slot>, HalfDUb: seq<Slot>)
  {
    predicate WellFormed() {
      |Fa| == |Ua| && |Fb| == |Ub| == |DFb| == |HalfDUb| &&
      IsInput(Fa) && IsInput(Ua) && IsInput(Fb) && IsInput(Ub) && IsInput(DFb) && IsInput(HalfDUb)
    }
  }

  /** The solved vector after `deconstruct_velocity_vector_for_fts`, by block:
      the sphere translational block (`FUa_out`, or `Fa_out` in `duf`), the
      sphere angular velocities, and the two dumbbell blocks (`Ub_out` and
      `HalfDUb_out` in `ufte`, `FUb_out` and `DFUb_out` otherwise). */
  datatype Solution = Solution(sphere: seq<Vec3>, angular: seq<Vec3>,
                               dumbbell: seq<Vec3>, difference: seq<Vec3>)

  predicate Fits(inp: Inputs, sol: Solution) {
    inp.WellFormed() &&
    |sol.sphere| == |sol.angular| == |inp.Ua| && |sol.dumbbell| == |sol.difference| == |inp.Ub|
  }

  datatype Outputs = Outputs(Fa: seq<Slot>, Ua: seq<Slot>, Oa: seq<Slot>,
                             Fb: seq<Slot>, Ub: seq<Slot>, DFb: seq<Slot>, HalfDUb: seq<Slot>)
  {
    predicate AllNumeric() {
      AllGiven(Fa) && AllGiven(Ua) && AllGiven(Oa) &&
      AllGiven(Fb) && AllGiven(Ub) && AllGiven(DFb) && AllGiven(HalfDUb)
    }
  }

  // ---------------------------------------------------------------------
  // ufte: spheres split into fixed-velocity and fixed-force groups

  predicate UfteExcitationComplete(inp: Inputs)
    requires inp.WellFormed()
  {
    AllGiven(Excitation(inp.Ua, inp.Fa)) && AllGiven(inp.Fb) && AllGiven(inp.DFb)
  }

  /** The `ufte` branch with the sphere outputs merged whatever the
      wall-force flag says. It fails only for a missing input; the dumbbell
      forces are passed through and the dumbbell velocities and angular
      velocities are the solved blocks. */
  function UfteOutputs(inp: Inputs, sol: Solution): (r: Result<Outputs, SolveError>)
    requires Fits(inp, sol)
    ensures r.Ok? <==> UfteExcitationComplete(inp)
    ensures r.Err? ==> r.error == MissingInput
    ensures r.Ok? ==> r.value.Fb == inp.Fb && r.value.DFb == inp.DFb &&
                      r.value.Oa == Lift(sol.angular) && r.value.Ub == Lift(sol.dumbbell) &&
                      r.value.HalfDUb == Lift(sol.difference)
  {
    if !UfteExcitationComplete(inp) then Err(MissingInput)
    else
      var a := Merge(inp.Ua, inp.Fa, sol.sphere, FixedCount(inp.Ua));
      Ok(Outputs(a.f, a.u, Lift(sol.angular), inp.Fb, Lift(sol.dumbbell), inp.DFb, Lift(sol.difference)))
  }

  /** The `ufte` branch as written: with `extract_force_on_wall_due_to_dumbbells`
      set, the merge of the `else` branch never runs, and the wall-force
      extraction fails first, when `reshape` is handed a float. */
  function UfteOutputsAsWritten(inp: Inputs, sol: Solution, extractWallForce: bool): (r: Result<Outputs, SolveError>)
    requires Fits(inp, sol)
    ensures !extractWallForce ==> r == UfteOutputs(inp, sol)
    ensures extractWallForce ==> r.Err?
    ensures r.Err? <==> extractWallForce || !UfteExcitationComplete(inp)
    ensures r.Err? && UfteExcitationComplete(inp) ==> r.error == FloatReshape
  {
    if !UfteExcitationComplete(inp) then Err(MissingInput)
    else if extractWallForce then Err(FloatReshape)
    else UfteOutputs(inp, sol)
  }

  /** With the wall-force flag set the source loses every output of a frame
      whose inputs are complete; the intended branch returns them. */
  lemma UfteExtractionLosesOutputs(inp: Inputs, sol: Solution)
    requires Fits(inp, sol) && UfteExcitationComplete(inp)
    ensures UfteOutputsAsWritten(inp, sol, true) == Err(FloatReshape)
    ensures UfteOutputs(inp, sol).Ok?
  {
  }

  /** `ufte` succeeds exactly when the fixed-velocity spheres come first,
      every other sphere has a force and the dumbbell forces are given; then
      every output is numeric and each sphere's output follows its group. */
  lemma UfteOutputsCorrect(inp: Inputs, sol: Solution)
    requires Fits(inp, sol)
    ensures UfteOutputs(inp, sol).Ok? <==>
              PrescribedFirst(inp.Ua) &&
              (forall i :: 0 <= i < |inp.Ua| && inp.Ua[i].Unset? ==> inp.Fa[i].Given?) &&
              AllGiven(inp.Fb) && AllGiven(inp.DFb)
    ensures UfteOutputs(inp, sol).Ok? ==>
              var o := UfteOutputs(inp, sol).value;
              o.AllNumeric() && |o.Fa| == |o.Ua| == |inp.Ua| &&
              (forall i :: 0 <= i < |inp.Ua| ==>
                 (inp.Ua[i].Given? ==> o.Ua[i] == inp.Ua[i] && o.Fa[i] == Given(sol.sphere[i])) &&
                 (inp.Ua[i].Unset? ==> o.Ua[i] == Given(sol.sphere[i]) && o.Fa[i] == inp.Fa[i])) &&
              o.Fb == inp.Fb && o.DFb == inp.DFb
  {
    ExcitationCompleteIff(inp.Ua, inp.Fa);
    if UfteOutputs(inp, sol).Ok? {
      MergeAllGiven(inp.Ua, inp.Fa, sol.sphere, FixedCount(inp.Ua));
      MergeFollowsPartition(inp.Ua, inp.Fa, sol.sphere);
    }
  }

  /** The `ufte` branch step by step: check the excitation list, then fill
      placeholder lists from the solved block and the inputs. */
  method SolveUfte(inp: Inputs, sol: Solution) returns (r: Result<Outputs, SolveError>)
    requires Fits(inp, sol)
    ensures r == UfteOutputs(inp, sol)
  {
    var k := FixedCount(inp.Ua);
    if !UfteExcitationComplete(inp) {
      return Err(MissingInput);
    }
    var fa := OverwriteSlices(Lift(sol.sphere), inp.Fa, k);
    var ua := OverwriteSlices(inp.Ua, Lift(sol.sphere), k);
    r := Ok(Outputs(fa, ua, Lift(sol.angular), inp.Fb, Lift(sol.dumbbell), inp.DFb, Lift(sol.difference)));
  }

  // ---------------------------------------------------------------------
  // ufteu: spheres and dumbbells both split

  predicate UfteuExcitationComplete(inp: Inputs)
    requires inp.WellFormed()
  {
    AllGiven(Excitation(inp.Ua, inp.Fa)) && AllGiven(Excitation(inp.Ub, inp.Fb)) &&
    AllGiven(Splice(inp.HalfDUb, inp.DFb, FixedCount(inp.Ub)))
  }

  /** The `ufteu` branch. The dumbbell split point is counted from `Ub_in`
      and used for the force-difference pair too. The wall-force flag only
      prints a warning in this mode. */
  function UfteuOutputs(inp: Inputs, sol: Solution): (r: Result<Outputs, SolveError>)
    requires Fits(inp, sol)
    ensures r.Ok? <==> UfteuExcitationComplete(inp)
    ensures r.Err? ==> r.error == MissingInput
    ensures r.Ok? ==> r.value.Oa == Lift(sol.angular) &&
                      |r.value.Fa| == |r.value.Ua| == |inp.Ua| &&
                      |r.value.Fb| == |r.value.Ub| == |r.value.DFb| == |r.value.HalfDUb| == |inp.Ub|
  {
    if !UfteuExcitationComplete(inp) then Err(MissingInput)
    else
      var kb := FixedCount(inp.Ub);
      var a := Merge(inp.Ua, inp.Fa, sol.sphere, FixedCount(inp.Ua));
      var b := Merge(inp.Ub, inp.Fb, sol.dumbbell, kb);
      var d := Merge(inp.HalfDUb, inp.DFb, sol.difference, kb);
      Ok(Outputs(a.f, a.u, Lift(sol.angular), b.f, b.u, d.f, d.u))
  }

  /** `ufteu` succeeds exactly when both populations list their fixed-velocity
      particles first, every other particle has its forces, and each fixed
      dumbbell has its half velocity difference; then every output is numeric
      and each dumbbell's outputs follow its group. */
  lemma UfteuOutputsCorrect(inp: Inputs, sol: Solution)
    requires Fits(inp, sol)
    ensures UfteuOutputs(inp, sol).Ok? <==>
              PrescribedFirst(inp.Ua) &&
              (forall i :: 0 <= i < |inp.Ua| && inp.Ua[i].Unset? ==> inp.Fa[i].Given?) &&
              PrescribedFirst(inp.Ub) &&
              (forall i :: 0 <= i < |inp.Ub| && inp.Ub[i].Unset? ==> inp.Fb[i].Given? && inp.DFb[i].Given?) &&
              (forall i :: 0 <= i < |inp.Ub| && inp.Ub[i].Given? ==> inp.HalfDUb[i].Given?)
    ensures UfteuOutputs(inp, sol).Ok? ==>
              var o := UfteuOutputs(inp, sol).value;
              o.AllNumeric() &&
              (forall i :: 0 <= i < |inp.Ua| ==>
                 (inp.Ua[i].Given? ==> o.Ua[i] == inp.Ua[i] && o.Fa[i] == Given(sol.sphere[i])) &&
                 (inp.Ua[i].Unset? ==> o.Ua[i] == Given(sol.sphere[i]) && o.Fa[i] == inp.Fa[i])) &&
              (forall i :: 0 <= i < |inp.Ub| ==>
                 (inp.Ub[i].Given? ==> o.Ub[i] == inp.Ub[i] && o.Fb[i] == Given(sol.dumbbell[i]) &&
                                       o.HalfDUb[i] == inp.HalfDUb[i] && o.DFb[i] == Given(sol.difference[i])) &&
                 (inp.Ub[i].Unset? ==> o.Ub[i] == Given(sol.dumbbell[i]) && o.Fb[i] == inp.Fb[i] &&
                                       o.HalfDUb[i] == Given(sol.difference[i]) && o.DFb[i] == inp.DFb[i]))
  {
    DumbbellExcitationIff(inp);
    ExcitationCompleteIff(inp.Ua, inp.Fa);
    if UfteuOutputs(inp, sol).Ok? {
      var kb := FixedCount(inp.Ub);
      MergeAllGiven(inp.Ua, inp.Fa, sol.sphere, FixedCount(inp.Ua));
      MergeAllGiven(inp.Ub, inp.Fb, sol.dumbbell, kb);
      MergeAllGiven(inp.HalfDUb, inp.DFb, sol.difference, kb);
      MergeFollowsPartition(inp.Ua, inp.Fa, sol.sphere);
      MergeFollowsPartition(inp.Ub, inp.Fb, sol.dumbbell);
      PrescribedExactlyBelowFixedCount(inp.Ub);
    }
  }

  /** The two dumbbell excitation lists, both split at the count taken from
      `Ub_in`, are complete exactly when the fixed-velocity dumbbells come
      first, the free ones have both forces and the fixed ones have their half
      velocity difference. */
  lemma DumbbellExcitationIff(inp: Inputs)
    requires inp.WellFormed()
    ensures AllGiven(Excitation(inp.Ub, inp.Fb)) && AllGiven(Splice(inp.HalfDUb, inp.DFb, FixedCount(inp.Ub))) <==>
              PrescribedFirst(inp.Ub) &&
              (forall i :: 0 <= i < |inp.Ub| && inp.Ub[i].Unset? ==> inp.Fb[i].Given? && inp.DFb[i].Given?) &&
              (forall i :: 0 <= i < |inp.Ub| && inp.Ub[i].Given? ==> inp.HalfDUb[i].Given?)
  {
    ExcitationCompleteIff(inp.Ub, inp.Fb);
    if PrescribedFirst(inp.Ub) {
      SplitPairCompleteIff(inp.Ub, inp.HalfDUb, inp.DFb);
    }
  }

  /** A pair of lists split at the fixed count of `u` is complete exactly when
      each fixed particle has its `front` entry and each free one its `back`
      entry. */
  lemma SplitPairCompleteIff(u: seq<Slot>, front: seq<Slot>, back: seq<Slot>)
    requires IsInput(u) && PrescribedFirst(u) && |front| == |back| == |u|
    ensures AllGiven(Splice(front, back, FixedCount(u))) <==>
              (forall i :: 0 <= i < |u| && u[i].Unset? ==> back[i].Given?) &&
              (forall i :: 0 <= i < |u| && u[i].Given? ==> front[i].Given?)
  {
    PrescribedExactlyBelowFixedCount(u);
  }

  method SolveUfteu(inp: Inputs, sol: Solution) returns (r: Result<Outputs, SolveError>)
    requires Fits(inp, sol)
    ensures r == UfteuOutputs(inp, sol)
  {
    var ka := FixedCount(inp.Ua);
    var kb := FixedCount(inp.Ub);
    if !UfteuExcitationComplete(inp) {
      return Err(MissingInput);
    }
    var fa := OverwriteSlices(Lift(sol.sphere), inp.Fa, ka);
    var ua := OverwriteSlices(inp.Ua, Lift(sol.sphere), ka);
    var fb := OverwriteSlices(Lift(sol.dumbbell), inp.Fb, kb);
    var ub := OverwriteSlices(inp.Ub, Lift(sol.dumbbell), kb);
    var dfb := OverwriteSlices(Lift(sol.difference), inp.DFb, kb);
    var halfDub := OverwriteSlices(inp.HalfDUb, Lift(sol.difference), kb);
    r := Ok(Outputs(fa, ua, Lift(sol.angular), fb, ub, dfb, halfDub));
  }

  // ---------------------------------------------------------------------
  // duf: dumbbells only are split, spheres fully prescribed

  predicate DufExcitationComplete(inp: Inputs)
    requires inp.WellFormed()
  {
    AllGiven(inp.Fa) && AllGiven(Excitation(inp.Ub, inp.Fb)) &&
    AllGiven(Splice(inp.HalfDUb, inp.DFb, FixedCount(inp.Ub)))
  }

  /** The `duf` branch: the sphere forces are the inputs (the solved sphere
      block is overwritten) and the sphere velocity and angular velocity
      outputs are empty arrays. */
  function DufOutputs(inp: Inputs, sol: Solution): (r: Result<Outputs, SolveError>)
    requires Fits(inp, sol)
    ensures r.Ok? <==> DufExcitationComplete(inp)
    ensures r.Err? ==> r.error == MissingInput
    ensures r.Ok? ==> r.value.Fa == inp.Fa && r.value.Ua == [] && r.value.Oa == [] &&
                      |r.value.Fb| == |r.value.Ub| == |r.value.DFb| == |r.value.HalfDUb| == |inp.Ub|
  {
    if !DufExcitationComplete(inp) then Err(MissingInput)
    else
      var kb := FixedCount(inp.Ub);
      var b := Merge(inp.Ub, inp.Fb, sol.dumbbell, kb);
      var d := Merge(inp.HalfDUb, inp.DFb, sol.difference, kb);
      Ok(Outputs(inp.Fa, [], [], b.f, b.u, d.f, d.u))
  }

  /** `duf` succeeds exactly when the sphere forces are given and the
      dumbbells satisfy the same condition as in `ufteu`; then every output is
      numeric, the sphere forces are returned unchanged and each dumbbell's
      outputs follow its group. */
  lemma DufOutputsCorrect(inp: Inputs, sol: Solution)
    requires Fits(inp, sol)
    ensures DufOutputs(inp, sol).Ok? <==>
              AllGiven(inp.Fa) &&
              PrescribedFirst(inp.Ub) &&
              (forall i :: 0 <= i < |inp.Ub| && inp.Ub[i].Unset? ==> inp.Fb[i].Given? && inp.DFb[i].Given?) &&
              (forall i :: 0 <= i < |inp.Ub| && inp.Ub[i].Given? ==> inp.HalfDUb[i].Given?)
    ensures DufOutputs(inp, sol).Ok? ==>
              var o := DufOutputs(inp, sol).value;
              o.AllNumeric() && o.Fa == inp.Fa && o.Ua == [] && o.Oa == [] &&
              |o.Fb| == |o.Ub| == |o.DFb| == |o.HalfDUb| == |inp.Ub| &&
              (forall i :: 0 <= i < |inp.Ub| ==>
                 (inp.Ub[i].Given? ==> o.Ub[i] == inp.Ub[i] && o.Fb[i] == Given(sol.dumbbell[i]) &&
                                       o.HalfDUb[i] == inp.HalfDUb[i] && o.DFb[i] == Given(sol.difference[i])) &&
                 (inp.Ub[i].Unset? ==> o.Ub[i] == Given(sol.dumbbell[i]) && o.Fb[i] == inp.Fb[i] &&
                                       o.HalfDUb[i] == Given(sol.difference[i]) && o.DFb[i] == inp.DFb[i]))
  {
    DumbbellExcitationIff(inp);
    if DufOutputs(inp, sol).Ok? {
      var kb := FixedCount(inp.Ub);
      MergeAllGiven(inp.Ub, inp.Fb, sol.dumbbell, kb);
      MergeAllGiven(inp.HalfDUb, inp.DFb, sol.difference, kb);
      MergeFollowsPartition(inp.Ub, inp.Fb, sol.dumbbell);
      PrescribedExactlyBelowFixedCount(inp.Ub);
    }
  }

  method SolveDuf(inp: Inputs, sol: Solution) returns (r: Result<Outputs, SolveError>)
    requires Fits(inp, sol)
    ensures r == DufOutputs(inp, sol)
  {
    var kb := FixedCount(inp.Ub);
    if !DufExcitationComplete(inp) {
      return Err(MissingInput);
    }
    var fb := OverwriteSlices(Lift(sol.dumbbell), inp.Fb, kb);
    var ub := OverwriteSlices(inp.Ub, Lift(sol.dumbbell), kb);
    var dfb := OverwriteSlices(Lift(sol.difference), inp.DFb, kb);
    var halfDub := OverwriteSlices(inp.HalfDUb, Lift(sol.difference), kb);
    r := Ok(Outputs(inp.Fa, [], [], fb, ub, dfb, halfDub));
  }
}
