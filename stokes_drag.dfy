/** The `stokes_drag_dumbbells_only` branch of `generate_output_FTSUOE`: no
    linear solve, each bead feels the drag `mu * a` of an isolated sphere of
    the first dumbbell's bead size. */
module StokesDrag {
  import opened Vectors
  import opened BoundaryConditions
  import opened SolveModes

  datatype DragError =
    | NonNumericForce   // `np.array(Fb_in) + np.array(DFb_in)` on a sentinel
    | NoDumbbellSize    // `dumbbell_sizes[0]` with no dumbbells
    | FloatSliceIndex   // `Ubeads[:Nbeads/2]`: a float slice index in Python 3

  function Values(s: seq<Slot>): (vs: seq<Vec3>)
    requires AllGiven(s)
    ensures |vs| == |s| && forall i :: 0 <= i < |s| ==> s[i] == Given(vs[i])
  {
    seq(|s|, i requires 0 <= i < |s| => s[i].v)
  }

  /** `0.5 * concatenate([Fb + DFb, Fb - DFb])`: the forces on the first beads
      of all dumbbells, then on the second beads. The two beads of a dumbbell
      carry its force between them and differ by its force difference. */
  function BeadForces(fb: seq<Vec3>, dfb: seq<Vec3>): (r: seq<Vec3>)
    requires |fb| == |dfb|
    ensures |r| == 2 * |fb|
    ensures forall i :: 0 <= i < |fb| ==> Add(r[i], r[|fb| + i]) == fb[i] && Sub(r[i], r[|fb| + i]) == dfb[i]
  {
    seq(|fb|, i requires 0 <= i < |fb| => Scale(0.5, Add(fb[i], dfb[i]))) +
    seq(|fb|, i requires 0 <= i < |fb| => Scale(0.5, Sub(fb[i], dfb[i])))
  }

  /** `Fbeads / drag_coeff`: the velocity at which each bead's drag balances
      its force. */
  function BeadVelocities(fBeads: seq<Vec3>, drag: real): (r: seq<Vec3>)
    requires drag != 0.0
    ensures |r| == |fBeads|
    ensures forall i :: 0 <= i < |fBeads| ==> Scale(drag, r[i]) == fBeads[i]
  {
    var r := seq(|fBeads|, i requires 0 <= i < |fBeads| => Div(fBeads[i], drag));
    DragBalances(fBeads, drag, r);
    r
  }

  lemma DragBalances(fBeads: seq<Vec3>, drag: real, uBeads: seq<Vec3>)
    requires drag != 0.0 && |uBeads| == |fBeads|
    requires forall i :: 0 <= i < |fBeads| ==> uBeads[i] == Div(fBeads[i], drag)
    ensures forall i :: 0 <= i < |fBeads| ==> Scale(drag, uBeads[i]) == fBeads[i]
  {
    forall i | 0 <= i < |fBeads| ensures Scale(drag, uBeads[i]) == fBeads[i] {
      ScaleUndoesDiv(fBeads[i], drag);
    }
  }

  lemma ScaleUndoesDiv(v: Vec3, c: real)
    requires c != 0.0
    ensures Scale(c, Div(v, c)) == v
  {
    assert c * (v.x / c) == v.x && c * (v.y / c) == v.y && c * (v.z / c) == v.z;
  }

  /** `0.5*(Ubeads[:half] + Ubeads[half:])` and `0.5*(Ubeads[:half] - Ubeads[half:])`
      with the integer half: the dumbbell velocity is the mean of its bead
      velocities and the half difference is half their difference. */
  function MeanAndHalfDifference(uBeads: seq<Vec3>): (r: (seq<Vec3>, seq<Vec3>))
    requires |uBeads| % 2 == 0
    ensures |r.0| == |r.1| == |uBeads| / 2
    ensures forall i :: 0 <= i < |uBeads| / 2 ==>
              Add(r.0[i], r.1[i]) == uBeads[i] && Sub(r.0[i], r.1[i]) == uBeads[|uBeads| / 2 + i]
  {
    var half := |uBeads| / 2;
    (seq(half, i requires 0 <= i < half => Scale(0.5, Add(uBeads[i], uBeads[half + i]))),
     seq(half, i requires 0 <= i < half => Scale(0.5, Sub(uBeads[i], uBeads[half + i]))))
  }

  predicate DragDefined(dumbbellSizes: seq<real>, mu: real) {
    |dumbbellSizes| > 0 ==> mu * dumbbellSizes[0] != 0.0
  }

  /** The branch with the integer half `Nbeads // 2`. The sphere outputs are
      copied from the inputs as the source copies them: `Ua_out` and `Oa_out`
      are both copies of `Fa_in`. */
  function StokesDragOutputs(inp: Inputs, dumbbellSizes: seq<real>, mu: real): (r: Result<Outputs, DragError>)
    requires inp.WellFormed() && DragDefined(dumbbellSizes, mu)
    ensures r.Ok? <==> AllGiven(inp.Fb) && AllGiven(inp.DFb) && |dumbbellSizes| > 0
    ensures r.Err? ==> (r.error == NonNumericForce <==> !(AllGiven(inp.Fb) && AllGiven(inp.DFb)))
    ensures r.Err? ==> r.error != FloatSliceIndex
    ensures r.Ok? ==> r.value.Fa == r.value.Ua == r.value.Oa == inp.Fa &&
                      r.value.Fb == inp.Fb && r.value.DFb == inp.DFb &&
                      |r.value.Ub| == |r.value.HalfDUb| == |inp.Fb|
  {
    if !AllGiven(inp.Fb) || !AllGiven(inp.DFb) then Err(NonNumericForce)
    else if |dumbbellSizes| == 0 then Err(NoDumbbellSize)
    else
      var drag := mu * dumbbellSizes[0];
      var uBeads := BeadVelocities(BeadForces(Values(inp.Fb), Values(inp.DFb)), drag);
      var (ub, halfDub) := MeanAndHalfDifference(uBeads);
      Ok(Outputs(inp.Fa, inp.Fa, inp.Fa, inp.Fb, Lift(ub), inp.DFb, Lift(halfDub)))
  }

  /** The branch as written: `Nbeads/2` is a float in Python 3 and slicing
      with it raises, so no input reaches a result. */
  function StokesDragOutputsAsWritten(inp: Inputs, dumbbellSizes: seq<real>, mu: real): (r: Result<Outputs, DragError>)
    requires inp.WellFormed()
    ensures r.Err?
    ensures r.error == FloatSliceIndex <==> AllGiven(inp.Fb) && AllGiven(inp.DFb) && |dumbbellSizes| > 0
  {
    if !AllGiven(inp.Fb) || !AllGiven(inp.DFb) then Err(NonNumericForce)
    else if |dumbbellSizes| == 0 then Err(NoDumbbellSize)
    else Err(FloatSliceIndex)
  }

  lemma StokesDragAsWrittenNeverSucceeds(inp: Inputs, dumbbellSizes: seq<real>, mu: real)
    requires inp.WellFormed() && DragDefined(dumbbellSizes, mu)
    ensures StokesDragOutputsAsWritten(inp, dumbbellSizes, mu).Err?
    ensures AllGiven(inp.Fb) && AllGiven(inp.DFb) && |dumbbellSizes| > 0 ==>
              StokesDragOutputs(inp, dumbbellSizes, mu).Ok?
  {
  }

  /** Dumbbell i of the outputs `o` in closed form, with the drag
      `mu * size`: it moves with `Fb / (2 drag)`, its half velocity difference
      is `DFb / (2 drag)`, and its two beads move with their own force over
      the drag. */
  predicate MovesWithDrag(o: Outputs, inp: Inputs, mu: real, size: real, i: int)
    requires mu * size != 0.0 && 0 <= i < |inp.Fb| == |inp.DFb| && AllGiven(inp.Fb) && AllGiven(inp.DFb)
  {
    var drag := mu * size;
    i < |o.Ub| && i < |o.HalfDUb| &&
    o.Ub[i] == Given(Div(inp.Fb[i].v, 2.0 * drag)) &&
    o.HalfDUb[i] == Given(Div(inp.DFb[i].v, 2.0 * drag)) &&
    Add(o.Ub[i].v, o.HalfDUb[i].v) == Div(Scale(0.5, Add(inp.Fb[i].v, inp.DFb[i].v)), drag) &&
    Sub(o.Ub[i].v, o.HalfDUb[i].v) == Div(Scale(0.5, Sub(inp.Fb[i].v, inp.DFb[i].v)), drag)
  }

  /** Closed form of the branch: every dumbbell moves with its force over
      twice the drag `mu a`, and forces pass through. */
  lemma StokesDragClosedForm(inp: Inputs, dumbbellSizes: seq<real>, mu: real)
    requires inp.WellFormed() && DragDefined(dumbbellSizes, mu)
    requires AllGiven(inp.Fb) && AllGiven(inp.DFb) && |dumbbellSizes| > 0
    ensures var r := StokesDragOutputs(inp, dumbbellSizes, mu);
      r.Ok? && r.value.Fb == inp.Fb && r.value.DFb == inp.DFb && r.value.Fa == inp.Fa &&
      |r.value.Ub| == |r.value.HalfDUb| == |inp.Fb| &&
      forall i :: 0 <= i < |inp.Fb| ==> MovesWithDrag(r.value, inp, mu, dumbbellSizes[0], i)
  {
    var r := StokesDragOutputs(inp, dumbbellSizes, mu);
    forall i | 0 <= i < |inp.Fb| ensures MovesWithDrag(r.value, inp, mu, dumbbellSizes[0], i) {
      StokesDragDumbbell(inp, dumbbellSizes, mu, i);
    }
  }

  lemma StokesDragDumbbell(inp: Inputs, dumbbellSizes: seq<real>, mu: real, i: int)
    requires inp.WellFormed() && DragDefined(dumbbellSizes, mu)
    requires AllGiven(inp.Fb) && AllGiven(inp.DFb) && |dumbbellSizes| > 0
    requires 0 <= i < |inp.Fb|
    ensures var r := StokesDragOutputs(inp, dumbbellSizes, mu);
      r.Ok? && MovesWithDrag(r.value, inp, mu, dumbbellSizes[0], i)
  {
    var drag := mu * dumbbellSizes[0];
    var fb, dfb := Values(inp.Fb), Values(inp.DFb);
    var n := |fb|;
    var uBeads := BeadVelocities(BeadForces(fb, dfb), drag);
    var mean := MeanAndHalfDifference(uBeads);
    var r := StokesDragOutputs(inp, dumbbellSizes, mu);
    assert inp.Fb[i].v == fb[i] && inp.DFb[i].v == dfb[i];
    assert r.value.Ub[i] == Given(mean.0[i]) && r.value.HalfDUb[i] == Given(mean.1[i]);
    assert mean.0[i] == Scale(0.5, Add(uBeads[i], uBeads[n + i]));
    assert mean.1[i] == Scale(0.5, Sub(uBeads[i], uBeads[n + i]));
    assert uBeads[i] == Div(Scale(0.5, Add(fb[i], dfb[i])), drag);
    assert uBeads[n + i] == Div(Scale(0.5, Sub(fb[i], dfb[i])), drag);
    DumbbellFromBeads(fb[i], dfb[i], drag, uBeads[i], uBeads[n + i], mean.0[i], mean.1[i]);
  }

  /** One dumbbell: from its two bead velocities to its velocity and half
      velocity difference, and back. */
  lemma DumbbellFromBeads(f: Vec3, d: Vec3, drag: real, first: Vec3, second: Vec3, ub: Vec3, halfDub: Vec3)
    requires drag != 0.0
    requires first == Div(Scale(0.5, Add(f, d)), drag) && second == Div(Scale(0.5, Sub(f, d)), drag)
    requires ub == Scale(0.5, Add(first, second)) && halfDub == Scale(0.5, Sub(first, second))
    ensures ub == Div(f, 2.0 * drag) && halfDub == Div(d, 2.0 * drag)
    ensures Add(ub, halfDub) == first && Sub(ub, halfDub) == second
  {
    BeadMean(f.x, d.x, drag);
    BeadMean(f.y, d.y, drag);
    BeadMean(f.z, d.z, drag);
    assert first == Vec3((0.5 * (f.x + d.x)) / drag, (0.5 * (f.y + d.y)) / drag, (0.5 * (f.z + d.z)) / drag);
    assert second == Vec3((0.5 * (f.x - d.x)) / drag, (0.5 * (f.y - d.y)) / drag, (0.5 * (f.z - d.z)) / drag);
  }

  /** One component of one dumbbell: the bead velocities are
      `(f +- d) / (2 drag)`, their mean is `f / (2 drag)` and their half
      difference `d / (2 drag)`. */
  lemma BeadMean(f: real, d: real, drag: real)
    requires drag != 0.0
    ensures 0.5 * ((0.5 * (f + d)) / drag + (0.5 * (f - d)) / drag) == f / (2.0 * drag)
    ensures 0.5 * ((0.5 * (f + d)) / drag - (0.5 * (f - d)) / drag) == d / (2.0 * drag)
    ensures f / (2.0 * drag) + d / (2.0 * drag) == (0.5 * (f + d)) / drag
    ensures f / (2.0 * drag) - d / (2.0 * drag) == (0.5 * (f - d)) / drag
  {
    var inv := 1.0 / drag;
    assert inv * drag == 1.0;
    assert (0.5 * (f + d)) / drag == (0.5 * (f + d)) * inv;
    assert (0.5 * (f - d)) / drag == (0.5 * (f - d)) * inv;
    assert f / (2.0 * drag) == 0.5 * f * inv;
    assert d / (2.0 * drag) == 0.5 * d * inv;
  }
}
