/** The explicit time integrators `euler_timestep` and `ab2_timestep`, and the
    angular-velocity blend that `ab2_timestep_rotation` hands to the Euler
    rotation step. An array of any shape is modelled as the flat sequence of
    its entries: both rules act entry by entry. */
module Integrators {

  /** Forward Euler: every entry moves by `dt` times its rate. */
  function EulerStep(x: seq<real>, u: seq<real>, dt: real): (r: seq<real>)
    requires |x| == |u|
    ensures |r| == |x|
    ensures forall i :: 0 <= i < |x| ==> r[i] == x[i] + dt * u[i]
  {
    if |x| == 0 then [] else [x[0] + dt * u[0]] + EulerStep(x[1..], u[1..], dt)
  }

  /** Adams-Bashforth 2: the rate is extrapolated from the current and the
      previous velocity. */
  function AB2Step(x: seq<real>, u: seq<real>, uPrevious: seq<real>, dt: real): (r: seq<real>)
    requires |x| == |u| == |uPrevious|
    ensures |r| == |x|
    ensures forall i :: 0 <= i < |x| ==> r[i] == x[i] + dt * (1.5 * u[i] - 0.5 * uPrevious[i])
  {
    if |x| == 0 then []
    else [x[0] + dt * (1.5 * u[0] - 0.5 * uPrevious[0])] + AB2Step(x[1..], u[1..], uPrevious[1..], dt)
  }

  /** `1.5*Oa_out - 0.5*Oa_out_previous`: the extrapolated rate. */
  function Blend(u: seq<real>, uPrevious: seq<real>): (r: seq<real>)
    requires |u| == |uPrevious|
    ensures |r| == |u|
    ensures forall i :: 0 <= i < |u| ==> r[i] == 1.5 * u[i] - 0.5 * uPrevious[i]
  {
    if |u| == 0 then [] else [1.5 * u[0] - 0.5 * uPrevious[0]] + Blend(u[1..], uPrevious[1..])
  }

  /** Adams-Bashforth 2 is Euler with the blended rate: the identity that lets
      `ab2_timestep_rotation` reuse the Euler rotation step. */
  lemma {:induction false} AB2IsEulerOfBlend(x: seq<real>, u: seq<real>, uPrevious: seq<real>, dt: real)
    requires |x| == |u| == |uPrevious|
    ensures AB2Step(x, u, uPrevious, dt) == EulerStep(x, Blend(u, uPrevious), dt)
  {
    var a := AB2Step(x, u, uPrevious, dt);
    var e := EulerStep(x, Blend(u, uPrevious), dt);
    forall i | 0 <= i < |x| ensures a[i] == e[i] {
      AB2EntryIsEulerEntry(x, u, uPrevious, dt, i);
    }
  }

  lemma AB2EntryIsEulerEntry(x: seq<real>, u: seq<real>, uPrevious: seq<real>, dt: real, i: int)
    requires |x| == |u| == |uPrevious| && 0 <= i < |x|
    ensures AB2Step(x, u, uPrevious, dt)[i] == EulerStep(x, Blend(u, uPrevious), dt)[i]
  {
    var b := Blend(u, uPrevious);
    SameEntry(x[i], u[i], uPrevious[i], dt, AB2Step(x, u, uPrevious, dt)[i], b[i], EulerStep(x, b, dt)[i]);
  }

  lemma SameEntry(xi: real, ui: real, previous: real, dt: real, ab2: real, rate: real, euler: real)
    requires ab2 == xi + dt * (1.5 * ui - 0.5 * previous)
    requires rate == 1.5 * ui - 0.5 * previous
    requires euler == xi + dt * rate
    ensures ab2 == euler
  {
  }

  /** With a steady velocity the two-step rule reduces to the one-step rule. */
  lemma {:induction false} AB2SteadyIsEuler(x: seq<real>, u: seq<real>, dt: real)
    requires |x| == |u|
    ensures AB2Step(x, u, u, dt) == EulerStep(x, u, dt)
  {
    var a := AB2Step(x, u, u, dt);
    var e := EulerStep(x, u, dt);
    assert forall i :: 0 <= i < |a| ==> a[i] == e[i];
  }

  /** Two Euler steps with the same rate make one step of the summed length. */
  lemma {:induction false} EulerStepsCompose(x: seq<real>, u: seq<real>, dt1: real, dt2: real)
    requires |x| == |u|
    ensures EulerStep(EulerStep(x, u, dt1), u, dt2) == EulerStep(x, u, dt1 + dt2)
  {
    var two := EulerStep(EulerStep(x, u, dt1), u, dt2);
    var one := EulerStep(x, u, dt1 + dt2);
    assert forall i :: 0 <= i < |one| ==> two[i] == one[i];
  }

  /** A zero timestep leaves the state where it is. */
  lemma {:induction false} EulerZeroStep(x: seq<real>, u: seq<real>)
    requires |x| == |u|
    ensures EulerStep(x, u, 0.0) == x
  {
    var e := EulerStep(x, u, 0.0);
    assert forall i :: 0 <= i < |x| ==> e[i] == x[i];
  }
}
