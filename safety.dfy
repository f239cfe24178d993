/** The length part of `did_something_go_wrong_with_dumbells`: the guard
    against numerical blow-up that threads the shared `error` flag. */
module Safety {
  import opened Vectors

  /** The length above which a dumbbell counts as exploded. */
  const MaxDumbbellLength: real := 5.0

  /** Some dumbbell is longer than the threshold. Lengths are compared in
      squares, `|d| > 5` being the same as `|d|^2 > 25` for a length. */
  predicate SomeDumbbellTooLong(newDeltax: seq<Vec3>) {
    exists i :: 0 <= i < |newDeltax| && NormSq(newDeltax[i]) > MaxDumbbellLength * MaxDumbbellLength
  }

  /** Walks the dumbbells once; the flag is raised by any that is too long
      (when protection is on) and is never cleared. */
  method DidSomethingGoWrongWithDumbbells(error: bool, newDeltax: seq<Vec3>, explosionProtection: bool)
    returns (err: bool)
    ensures error ==> err
    ensures !explosionProtection ==> err == error
    ensures explosionProtection ==> (err <==> error || SomeDumbbellTooLong(newDeltax))
  {
    err := error;
    var i := 0;
    while i < |newDeltax|
      invariant 0 <= i <= |newDeltax|
      invariant err <==> error || (explosionProtection && SomeDumbbellTooLong(newDeltax[..i]))
    {
      if explosionProtection && NormSq(newDeltax[i]) > MaxDumbbellLength * MaxDumbbellLength {
        err := true;
      }
      assert newDeltax[..i + 1] == newDeltax[..i] + [newDeltax[i]];
      i := i + 1;
    }
    assert newDeltax[..i] == newDeltax;
  }
}
