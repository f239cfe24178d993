/** The partition-and-merge logic of `generate_output_FTSUOE` for the
    boundary-condition modes `ufte`, `ufteu` and `duf`: some particles have a
    prescribed velocity, the others a prescribed force, and the solved vector
    holds the unknown of each. The linear solve, the matrix reordering and
    `deconstruct_velocity_vector_for_fts` are outside the model: their
    result, the solved vector split into its blocks, is an input. */
module BoundaryConditions {
  import opened Vectors

  /** One particle's entry of an input or output list: a 3-vector, the
      `['pippa', 'pippa', 'pippa']` sentinel of an input that is not
      prescribed, or the `['chen', 'chen', 'chen']` placeholder of an output
      not yet written. */
  datatype Slot = Given(v: Vec3) | Unset | Placeholder

  datatype SolveError =
    | MissingInput  // `throw_error`: the excitation list has an entry that is not a vector
    | FloatReshape  // `reshape` is handed `len(...)/3`, which is a float

  datatype Result<T, E> = Ok(value: T) | Err(error: E)

  /** `lst.count(['pippa', 'pippa', 'pippa'])`: none exactly when no entry is
      the sentinel, all exactly when every entry is. */
  function CountUnset(s: seq<Slot>): (c: nat)
    ensures c <= |s|
    ensures c == 0 <==> forall i :: 0 <= i < |s| ==> !s[i].Unset?
    ensures c == |s| <==> forall i :: 0 <= i < |s| ==> s[i].Unset?
  {
    if |s| == 0 then 0
    else
      assert forall i :: 1 <= i < |s| ==> s[i] == s[1..][i - 1];
      (if s[0].Unset? then 1 else 0) + CountUnset(s[1..])
  }

  /** `num_fixed_velocity_spheres` (or `_dumbbells`): how many particles do
      not carry the sentinel. It is the whole population exactly when no
      entry is the sentinel, and zero exactly when every entry is. */
  function FixedCount(u: seq<Slot>): (k: nat)
    ensures k <= |u|
    ensures k == |u| <==> forall i :: 0 <= i < |u| ==> !u[i].Unset?
    ensures k == 0 <==> forall i :: 0 <= i < |u| ==> u[i].Unset?
  {
    |u| - CountUnset(u)
  }

  /** The slicing of the source assumes that the particles with a prescribed
      velocity come first: no prescribed entry follows a sentinel. */
  predicate PrescribedFirst(u: seq<Slot>) {
    forall i, j :: 0 <= i < j < |u| && u[i].Unset? ==> u[j].Unset?
  }

  /** Inputs hold vectors and sentinels, never placeholders. */
  predicate IsInput(s: seq<Slot>) {
    forall i :: 0 <= i < |s| ==> !s[i].Placeholder?
  }

  predicate AllGiven(s: seq<Slot>) {
    forall i :: 0 <= i < |s| ==> s[i].Given?
  }

  /** A solved block as list entries. */
  function Lift(vs: seq<Vec3>): (r: seq<Slot>)
    ensures |r| == |vs| && AllGiven(r)
    ensures forall i :: 0 <= i < |vs| ==> r[i] == Given(vs[i])
  {
    seq(|vs|, i requires 0 <= i < |vs| => Given(vs[i]))
  }

  /** `front[0:k] + back[k:n]`, the shape of every excitation list and of
      every merged output. */
  function Splice(front: seq<Slot>, back: seq<Slot>, k: nat): (r: seq<Slot>)
    requires k <= |front| == |back|
    ensures |r| == |front|
    ensures forall i :: 0 <= i < k ==> r[i] == front[i]
    ensures forall i :: k <= i < |r| ==> r[i] == back[i]
  {
    front[..k] + back[k..]
  }

  /** The excitation list `u_in[0:k] + f_in[k:n]`, with k counted from `u`.
      When the prescribed particles come first it holds, per particle, the
      prescribed velocity if there is one and the force otherwise. */
  function Excitation(u: seq<Slot>, f: seq<Slot>): (r: seq<Slot>)
    requires |u| == |f|
    ensures |r| == |u|
    ensures IsInput(u) && PrescribedFirst(u) ==>
              forall i :: 0 <= i < |u| ==> r[i] == if u[i].Given? then u[i] else f[i]
  {
    if IsInput(u) && PrescribedFirst(u) then
      PrescribedExactlyBelowFixedCount(u);
      Splice(u, f, FixedCount(u))
    else Splice(u, f, FixedCount(u))
  }

  /** Allocates a list of n placeholders, then overwrites `[0:k]` from `front`
      and `[k:n]` from `back`, as the source does for every merged output. */
  method OverwriteSlices(front: seq<Slot>, back: seq<Slot>, k: nat) returns (out: seq<Slot>)
    requires k <= |front| == |back|
    ensures out == Splice(front, back, k)
  {
    var n := |front|;
    var a := new Slot[n](_ => Placeholder);
    var i := 0;
    while i < k
      invariant 0 <= i <= k
      invariant forall j :: 0 <= j < i ==> a[j] == front[j]
    {
      a[i] := front[i];
      i := i + 1;
    }
    while i < n
      invariant k <= i <= n
      invariant forall j :: 0 <= j < k ==> a[j] == front[j]
      invariant forall j :: k <= j < i ==> a[j] == back[j]
    {
      a[i] := back[i];
      i := i + 1;
    }
    out := a[..];
  }

  // ---------------------------------------------------------------------
  // Counting the sentinels

  lemma {:induction false} CountUnsetAppend(a: seq<Slot>, b: seq<Slot>)
    ensures CountUnset(a + b) == CountUnset(a) + CountUnset(b)
  {
    if |a| > 0 {
      assert (a + b)[1..] == a[1..] + b;
      CountUnsetAppend(a[1..], b);
    } else {
      assert a + b == b;
    }
  }

  /** With the prescribed particles first, the fixed count is exactly the
      boundary between the two groups. */
  lemma PrescribedExactlyBelowFixedCount(u: seq<Slot>)
    requires IsInput(u) && PrescribedFirst(u)
    ensures forall i :: 0 <= i < |u| ==> (u[i].Given? <==> i < FixedCount(u))
  {
    var p := 0;
    while p < |u| && u[p].Given?
      invariant 0 <= p <= |u|
      invariant forall i :: 0 <= i < p ==> u[i].Given?
    {
      p := p + 1;
    }
    assert forall i :: p <= i < |u| ==> u[i].Unset?;
    assert u == u[..p] + u[p..];
    CountUnsetAppend(u[..p], u[p..]);
    assert CountUnset(u[..p]) == 0;
    assert CountUnset(u[p..]) == |u| - p;
  }

  /** The call that builds the force vector succeeds (every entry of the
      excitation list is a vector) exactly when the prescribed particles come
      first and every particle without a prescribed velocity has a
      prescribed force. */
  lemma ExcitationCompleteIff(u: seq<Slot>, f: seq<Slot>)
    requires |u| == |f| && IsInput(u)
    ensures AllGiven(Excitation(u, f)) <==>
              PrescribedFirst(u) && forall i :: 0 <= i < |u| && u[i].Unset? ==> f[i].Given?
  {
    var k := FixedCount(u);
    var e := Excitation(u, f);
    if AllGiven(e) {
      assert forall i :: 0 <= i < k ==> u[i].Given? by {
        forall i | 0 <= i < k ensures u[i].Given? { assert e[i] == u[i]; }
      }
      assert u == u[..k] + u[k..];
      CountUnsetAppend(u[..k], u[k..]);
      assert CountUnset(u[..k]) == 0;
      assert forall i :: k <= i < |u| ==> u[i].Unset? by {
        forall i | k <= i < |u| ensures u[i].Unset? { assert u[i] == u[k..][i - k]; }
      }
      forall i | 0 <= i < |u| && u[i].Unset? ensures f[i].Given? { assert e[i] == f[i]; }
    }
    if PrescribedFirst(u) && forall i :: 0 <= i < |u| && u[i].Unset? ==> f[i].Given? {
      PrescribedExactlyBelowFixedCount(u);
    }
  }

  // ---------------------------------------------------------------------
  // Merging the solved vector with the inputs

  /** The merged pair `(f_out, u_out)`: the first k forces and the remaining
      velocities come from the solved block, the rest from the inputs. */
  datatype Merged = Merged(f: seq<Slot>, u: seq<Slot>)

  function Merge(u: seq<Slot>, f: seq<Slot>, solved: seq<Vec3>, k: nat): (r: Merged)
    requires k <= |u| && |u| == |f| == |solved|
    ensures |r.f| == |r.u| == |u|
    ensures forall i :: 0 <= i < k ==> r.u[i] == u[i] && r.f[i] == Given(solved[i])
    ensures forall i :: k <= i < |u| ==> r.u[i] == Given(solved[i]) && r.f[i] == f[i]
  {
    Merged(Splice(Lift(solved), f, k), Splice(u, Lift(solved), k))
  }

  /** Read per particle: a particle with a prescribed velocity keeps it and
      gets its force from the solve; a particle without one keeps its force
      and gets its velocity from the solve. */
  lemma MergeFollowsPartition(u: seq<Slot>, f: seq<Slot>, solved: seq<Vec3>)
    requires |u| == |f| == |solved| && IsInput(u) && PrescribedFirst(u)
    ensures var m := Merge(u, f, solved, FixedCount(u));
      forall i :: 0 <= i < |u| ==>
        (u[i].Given? ==> m.u[i] == u[i] && m.f[i] == Given(solved[i])) &&
        (u[i].Unset? ==> m.u[i] == Given(solved[i]) && m.f[i] == f[i])
  {
    PrescribedExactlyBelowFixedCount(u);
  }

  /** When the excitation list was complete no placeholder and no sentinel
      survives the merge. */
  lemma MergeAllGiven(u: seq<Slot>, f: seq<Slot>, solved: seq<Vec3>, k: nat)
    requires k <= |u| && |u| == |f| == |solved| && AllGiven(Splice(u, f, k))
    ensures AllGiven(Merge(u, f, solved, k).f) && AllGiven(Merge(u, f, solved, k).u)
  {
    var e := Splice(u, f, k);
    assert forall i :: 0 <= i < k ==> e[i] == u[i];
    assert forall i :: k <= i < |u| ==> e[i] == f[i];
  }
}
