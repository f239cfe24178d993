/** `add_background_flow_spheres` and `add_background_flow_dumbbells`: the
    ambient linear flow (a uniform velocity, a rigid rotation about the flow
    centre and a strain) added to the disturbance velocities the solve
    returns. */
module BackgroundFlow {
  import opened Vectors

  /** The ambient velocity at x: `U + O x (x - c) + E . (x - c)`, the uniform
      velocity plus the ambient change across the displacement from the flow
      centre. */
  function AmbientVelocity(uInf: Vec3, oInf: Vec3, e: Mat3, centre: Vec3, x: Vec3): (r: Vec3)
    ensures r == Add(uInf, AmbientChange(oInf, e, Sub(x, centre)))
  {
    Add(Add(uInf, Cross(oInf, Sub(x, centre))), MatVec(e, Sub(x, centre)))
  }

  /** The change of the ambient velocity across a displacement d (it does not
      depend on where d starts). */
  function AmbientChange(oInf: Vec3, e: Mat3, d: Vec3): Vec3 {
    Add(Cross(oInf, d), MatVec(e, d))
  }

  /** Fills `E_infinity_dot_x` row by row, then adds the uniform, rotational
      and strain parts to every sphere's velocity and the ambient rotation to
      its angular velocity. Sphere i uses its own strain-rate row `Ea[i]`. */
  method AddBackgroundFlowSpheres(ua: seq<Vec3>, oa: seq<Vec3>, ea: seq<Mat3>, uInf: Vec3, oInf: Vec3,
                                  positions: seq<Vec3>, centre: Vec3)
    returns (uaPlus: seq<Vec3>, oaPlus: seq<Vec3>)
    requires |ua| == |oa| == |positions| <= |ea|
    ensures |uaPlus| == |oaPlus| == |positions|
    ensures forall i :: 0 <= i < |positions| ==>
              uaPlus[i] == Add(ua[i], AmbientVelocity(uInf, oInf, ea[i], centre, positions[i]))
    ensures forall i :: 0 <= i < |positions| ==> oaPlus[i] == Add(oa[i], oInf)
  {
    var n := |positions|;
    var oCrossX := seq(n, i requires 0 <= i < n => Cross(oInf, Sub(positions[i], centre)));
    var eDotX := new Vec3[n];
    var i := 0;
    while i < n
      invariant 0 <= i <= n
      invariant forall j :: 0 <= j < i ==> eDotX[j] == MatVec(ea[j], Sub(positions[j], centre))
    {
      eDotX[i] := MatVec(ea[i], Sub(positions[i], centre));
      i := i + 1;
    }
    uaPlus := seq(n, j requires 0 <= j < n reads eDotX => Add(Add(Add(ua[j], uInf), oCrossX[j]), eDotX[j]));
    oaPlus := seq(n, j requires 0 <= j < n => Add(oa[j], oInf));
    forall j | 0 <= j < n
      ensures uaPlus[j] == Add(ua[j], AmbientVelocity(uInf, oInf, ea[j], centre, positions[j]))
    {
      AddRegroup(ua[j], uInf, oCrossX[j], eDotX[j]);
    }
  }

  lemma AddRegroup(a: Vec3, b: Vec3, c: Vec3, d: Vec3)
    ensures Add(Add(Add(a, b), c), d) == Add(a, Add(Add(b, c), d))
  {
  }

  /** The dumbbell version: the centre moves with the ambient velocity at the
      dumbbell's centre, and the half velocity difference gains half the
      ambient change across the bead separation. Every dumbbell uses the
      strain rate `Ea[0]`. */
  method AddBackgroundFlowDumbbells(ub: seq<Vec3>, halfDub: seq<Vec3>, ea: seq<Mat3>, uInf: Vec3, oInf: Vec3,
                                    positions: seq<Vec3>, deltax: seq<Vec3>, centre: Vec3)
    returns (ubPlus: seq<Vec3>, halfDubPlus: seq<Vec3>)
    requires |ub| == |halfDub| == |positions| == |deltax|
    requires |positions| > 0 ==> |ea| > 0
    ensures |ubPlus| == |halfDubPlus| == |positions|
    ensures forall i :: 0 <= i < |positions| ==>
              ubPlus[i] == Add(ub[i], AmbientVelocity(uInf, oInf, ea[0], centre, positions[i])) &&
              halfDubPlus[i] == Add(halfDub[i], Scale(0.5, AmbientChange(oInf, ea[0], deltax[i])))
  {
    var n := |positions|;
    var oCrossXbar := seq(n, i requires 0 <= i < n => Cross(oInf, Sub(positions[i], centre)));
    var oCrossDeltax := seq(n, i requires 0 <= i < n => Cross(oInf, deltax[i]));
    var eDotXbar := new Vec3[n];
    var eDotDeltax := new Vec3[n];
    var i := 0;
    while i < n
      invariant 0 <= i <= n
      invariant forall j :: 0 <= j < i ==> eDotXbar[j] == MatVec(ea[0], Sub(positions[j], centre))
      invariant forall j :: 0 <= j < i ==> eDotDeltax[j] == MatVec(ea[0], deltax[j])
    {
      eDotXbar[i] := MatVec(ea[0], Sub(positions[i], centre));
      eDotDeltax[i] := MatVec(ea[0], deltax[i]);
      i := i + 1;
    }
    ubPlus := seq(n, j requires 0 <= j < n reads eDotXbar => Add(Add(Add(ub[j], uInf), oCrossXbar[j]), eDotXbar[j]));
    halfDubPlus := seq(n, j requires 0 <= j < n reads eDotDeltax =>
                         Add(halfDub[j], Scale(0.5, Add(oCrossDeltax[j], eDotDeltax[j]))));
    forall j | 0 <= j < n
      ensures ubPlus[j] == Add(ub[j], AmbientVelocity(uInf, oInf, ea[0], centre, positions[j]))
    {
      AddRegroup(ub[j], uInf, oCrossXbar[j], eDotXbar[j]);
    }
  }

  /** The ambient velocity changes linearly along a displacement. */
  lemma AmbientAlong(uInf: Vec3, oInf: Vec3, e: Mat3, centre: Vec3, x: Vec3, d: Vec3)
    ensures AmbientVelocity(uInf, oInf, e, centre, Add(x, d)) ==
              Add(AmbientVelocity(uInf, oInf, e, centre, x), AmbientChange(oInf, e, d))
    ensures AmbientVelocity(uInf, oInf, e, centre, Sub(x, d)) ==
              Sub(AmbientVelocity(uInf, oInf, e, centre, x), AmbientChange(oInf, e, d))
  {
    assert Sub(Add(x, d), centre) == Add(Sub(x, centre), d);
    assert Sub(Sub(x, d), centre) == Sub(Sub(x, centre), d);
    CrossDistributes(oInf, Sub(x, centre), d);
    MatVecDistributes(e, Sub(x, centre), d);
  }

  /** What the dumbbell update means bead by bead: with bead velocities
      `Ub + HalfDUb` and `Ub - HalfDUb` and beads at `x +- deltax/2`, each
      bead gains exactly the ambient velocity at its own position. */
  lemma DumbbellBeadsFollowAmbientFlow(ub: Vec3, halfDub: Vec3, uInf: Vec3, oInf: Vec3, e: Mat3,
                                       centre: Vec3, x: Vec3, deltax: Vec3)
    ensures var ubPlus := Add(ub, AmbientVelocity(uInf, oInf, e, centre, x));
            var halfDubPlus := Add(halfDub, Scale(0.5, AmbientChange(oInf, e, deltax)));
            Add(ubPlus, halfDubPlus) == Add(Add(ub, halfDub), AmbientVelocity(uInf, oInf, e, centre, Add(x, Scale(0.5, deltax)))) &&
            Sub(ubPlus, halfDubPlus) == Add(Sub(ub, halfDub), AmbientVelocity(uInf, oInf, e, centre, Sub(x, Scale(0.5, deltax))))
  {
    var h := Scale(0.5, deltax);
    AmbientAlong(uInf, oInf, e, centre, x, h);
    CrossScales(oInf, 0.5, deltax);
    MatVecScales(e, 0.5, deltax);
    assert AmbientChange(oInf, e, h) == Scale(0.5, AmbientChange(oInf, e, deltax));
  }

  /** A particle at the flow centre sees only the uniform part. */
  lemma AmbientAtCentre(uInf: Vec3, oInf: Vec3, e: Mat3, centre: Vec3)
    ensures AmbientVelocity(uInf, oInf, e, centre, centre) == uInf
  {
  }
}
