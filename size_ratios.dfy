/** `do_we_have_all_size_ratios`: every pairwise size ratio of the particles
    must be one the near-field lookup table was computed for, or the
    reciprocal of one. Sizes and table entries are radii and their ratios,
    so they are non-zero. */
module SizeRatios {

  datatype Option<T> = None | Some(value: T)

  predicate NonZero(s: seq<real>) {
    forall k :: 0 <= k < |s| ==> s[k] != 0.0
  }

  /** Entry (i, j) of `element_sizes / element_sizes[:, None]`. */
  function Ratio(sizes: seq<real>, i: nat, j: nat): real
    requires NonZero(sizes) && i < |sizes| && j < |sizes|
  {
    sizes[j] / sizes[i]
  }

  /** `1 / lam_range`. */
  function Reciprocals(lam: seq<real>): (r: seq<real>)
    requires NonZero(lam)
    ensures |r| == |lam|
    ensures forall k :: 0 <= k < |lam| ==> r[k] * lam[k] == 1.0
  {
    if |lam| == 0 then [] else [1.0 / lam[0]] + Reciprocals(lam[1..])
  }

  /** `np.concatenate([lam_range, 1 / lam_range])`. */
  function Covered(lam: seq<real>): seq<real>
    requires NonZero(lam)
  {
    lam + Reciprocals(lam)
  }

  predicate Uncovered(sizes: seq<real>, lam: seq<real>, i: nat, j: nat)
    requires NonZero(sizes) && NonZero(lam) && i < |sizes| && j < |sizes|
  {
    Ratio(sizes, i, j) !in Covered(lam)
  }

  /** The offending pairs of row i from column j on, left to right: each is
      an uncovered pair of that row, and the columns strictly increase. */
  function RowOffenders(sizes: seq<real>, lam: seq<real>, i: nat, j: nat): (r: seq<(nat, nat)>)
    requires NonZero(sizes) && NonZero(lam) && i < |sizes| && j <= |sizes|
    ensures forall k :: 0 <= k < |r| ==> r[k].0 == i && j <= r[k].1 < |sizes| && Uncovered(sizes, lam, i, r[k].1)
    ensures forall k, l :: 0 <= k < l < |r| ==> r[k].1 < r[l].1
    decreases |sizes| - j
  {
    if j == |sizes| then []
    else (if Uncovered(sizes, lam, i, j) then [(i, j)] else []) + RowOffenders(sizes, lam, i, j + 1)
  }

  /** `np.where(do_we_have_it_matrix == 0)` from row i on: uncovered pairs
      from row i down, each listed once, in row-major order. */
  function Offenders(sizes: seq<real>, lam: seq<real>, i: nat): (r: seq<(nat, nat)>)
    requires NonZero(sizes) && NonZero(lam) && i <= |sizes|
    ensures forall k :: 0 <= k < |r| ==>
              i <= r[k].0 < |sizes| && r[k].1 < |sizes| && Uncovered(sizes, lam, r[k].0, r[k].1)
    ensures forall k, l :: 0 <= k < l < |r| ==> RowMajorBefore(r[k], r[l]) && r[k] != r[l]
    decreases |sizes| - i
  {
    if i == |sizes| then [] else RowOffenders(sizes, lam, i, 0) + Offenders(sizes, lam, i + 1)
  }

  lemma {:induction false} RowOffendersExact(sizes: seq<real>, lam: seq<real>, i: nat, j: nat, p: (nat, nat))
    requires NonZero(sizes) && NonZero(lam) && i < |sizes| && j <= |sizes|
    ensures p in RowOffenders(sizes, lam, i, j) <==>
              p.0 == i && j <= p.1 < |sizes| && Uncovered(sizes, lam, i, p.1)
    decreases |sizes| - j
  {
    if j < |sizes| {
      RowOffendersExact(sizes, lam, i, j + 1, p);
    }
  }

  /** The list of offenders holds exactly the uncovered pairs. */
  lemma {:induction false} OffendersExact(sizes: seq<real>, lam: seq<real>, i: nat, p: (nat, nat))
    requires NonZero(sizes) && NonZero(lam) && i <= |sizes|
    ensures p in Offenders(sizes, lam, i) <==>
              i <= p.0 < |sizes| && p.1 < |sizes| && Uncovered(sizes, lam, p.0, p.1)
    decreases |sizes| - i
  {
    if i <= p.0 < |sizes| && p.1 < |sizes| && Uncovered(sizes, lam, p.0, p.1) {
      var row, rest := RowOffenders(sizes, lam, i, 0), Offenders(sizes, lam, i + 1);
      assert Offenders(sizes, lam, i) == row + rest;
      if p.0 == i {
        RowOffendersExact(sizes, lam, i, 0, p);
        assert p in row;
      } else {
        OffendersExact(sizes, lam, i + 1, p);
        assert p in rest;
      }
    }
  }

  predicate SomeRatioMissing(sizes: seq<real>, lam: seq<real>)
    requires NonZero(sizes) && NonZero(lam)
  {
    exists i: nat, j: nat :: i < |sizes| && j < |sizes| && Uncovered(sizes, lam, i, j)
  }

  lemma OffendersNonEmptyIff(sizes: seq<real>, lam: seq<real>)
    requires NonZero(sizes) && NonZero(lam)
    ensures |Offenders(sizes, lam, 0)| > 0 <==> SomeRatioMissing(sizes, lam)
  {
    var offs := Offenders(sizes, lam, 0);
    if |offs| > 0 {
      OffendersExact(sizes, lam, 0, offs[0]);
    }
    if SomeRatioMissing(sizes, lam) {
      var i: nat, j: nat :| i < |sizes| && j < |sizes| && Uncovered(sizes, lam, i, j);
      OffendersExact(sizes, lam, 0, (i, j));
    }
  }

  /** True when some ratio, including a particle with itself, is missing from
      the table and its reciprocals; otherwise the incoming flag unchanged. */
  function DoWeHaveAllSizeRatios(error: bool, sizes: seq<real>, lam: seq<real>): (r: bool)
    requires NonZero(sizes) && NonZero(lam)
    ensures r <==> error || SomeRatioMissing(sizes, lam)
    ensures SomeRatioMissing(sizes, lam) ==> r
    ensures !SomeRatioMissing(sizes, lam) ==> r == error
  {
    OffendersNonEmptyIff(sizes, lam);
    if |Offenders(sizes, lam, 0)| > 0 then true else error
  }

  /** How the error message names an element: spheres come first in
      `element_sizes`, dumbbells are counted from 0 after them. */
  datatype Element = Sphere(index: nat) | Dumbbell(index: nat)

  function Label(k: nat, numSpheres: nat): (e: Element)
    ensures e.Sphere? <==> k < numSpheres
    ensures e.Sphere? ==> e.index == k
    ensures e.Dumbbell? ==> e.index + numSpheres == k
  {
    if k >= numSpheres then Dumbbell(k - numSpheres) else Sphere(k)
  }

  /** What the error message reports: a ratio and the two elements. */
  datatype Report = Report(ratio: real, first: Element, second: Element)

  /** The report as the source builds it: ratio and labels come from
      `offending_elements[0][0]` and `offending_elements[0][1]`, the ROW
      indices of the first and of the second offending pair; with a single
      offending pair the second index does not exist (an IndexError, None). */
  function OffenderReportAsWritten(sizes: seq<real>, lam: seq<real>, numSpheres: nat): (r: Option<Report>)
    requires NonZero(sizes) && NonZero(lam)
    ensures r.None? <==> |Offenders(sizes, lam, 0)| < 2
    ensures r.Some? ==> SomeRatioMissing(sizes, lam) &&
                        r.value.first == OffenderReport(sizes, lam, numSpheres).first &&
                        r.value.second == Label(Offenders(sizes, lam, 0)[1].0, numSpheres) &&
                        r.value.ratio == Ratio(sizes, Offenders(sizes, lam, 0)[0].0, Offenders(sizes, lam, 0)[1].0)
  {
    var offs := Offenders(sizes, lam, 0);
    if |offs| < 2 then None
    else
      OffendersNonEmptyIff(sizes, lam);
      Some(Report(Ratio(sizes, offs[0].0, offs[1].0), Label(offs[0].0, numSpheres), Label(offs[1].0, numSpheres)))
  }

  /** Row-major order, the order of `np.where`. */
  predicate RowMajorBefore(p: (nat, nat), q: (nat, nat)) {
    p.0 < q.0 || (p.0 == q.0 && p.1 <= q.1)
  }

  /** The first offending pair in row-major order: `offending_elements[0][0]`
      and `offending_elements[1][0]`. */
  function FirstOffender(sizes: seq<real>, lam: seq<real>): (p: (nat, nat))
    requires NonZero(sizes) && NonZero(lam) && SomeRatioMissing(sizes, lam)
    ensures p.0 < |sizes| && p.1 < |sizes| && Uncovered(sizes, lam, p.0, p.1)
    ensures forall i: nat, j: nat :: i < |sizes| && j < |sizes| && Uncovered(sizes, lam, i, j) ==>
              RowMajorBefore(p, (i, j))
  {
    OffendersNonEmptyIff(sizes, lam);
    var offs := Offenders(sizes, lam, 0);
    assert forall i: nat, j: nat :: i < |sizes| && j < |sizes| && Uncovered(sizes, lam, i, j) ==> (i, j) in offs by {
      forall i: nat, j: nat | i < |sizes| && j < |sizes| && Uncovered(sizes, lam, i, j) ensures (i, j) in offs {
        OffendersExact(sizes, lam, 0, (i, j));
      }
    }
    assert forall p :: p in offs ==> RowMajorBefore(offs[0], p);
    offs[0]
  }

  /** The report as intended: the first offending pair (i, j) and its ratio
      `sizes[j] / sizes[i]`, which the table does not hold. */
  function OffenderReport(sizes: seq<real>, lam: seq<real>, numSpheres: nat): (r: Report)
    requires NonZero(sizes) && NonZero(lam) && SomeRatioMissing(sizes, lam)
    ensures r.ratio !in Covered(lam)
    ensures var p := FirstOffender(sizes, lam);
            r.ratio == Ratio(sizes, p.0, p.1) && r.first == Label(p.0, numSpheres) && r.second == Label(p.1, numSpheres)
  {
    var p := FirstOffender(sizes, lam);
    Report(Ratio(sizes, p.0, p.1), Label(p.0, numSpheres), Label(p.1, numSpheres))
  }

  /** Three spheres of sizes 1, 3 and 5 against a table holding only the
      ratio 1: the source reports sphere 0 against sphere 0 with ratio 1,
      a ratio the table does hold, while the intended report names a pair
      whose ratio is missing. */
  lemma AsWrittenReportNamesCoveredRatio()
    ensures DoWeHaveAllSizeRatios(false, [1.0, 3.0, 5.0], [1.0])
    ensures OffenderReportAsWritten([1.0, 3.0, 5.0], [1.0], 3) == Some(Report(1.0, Sphere(0), Sphere(0)))
    ensures 1.0 in Covered([1.0])
    ensures OffenderReport([1.0, 3.0, 5.0], [1.0], 3).ratio !in Covered([1.0])
  {
    var sizes, lam := [1.0, 3.0, 5.0], [1.0];
    assert Covered(lam) == [1.0, 1.0];
    assert Uncovered(sizes, lam, 0, 1);
    ExampleOffenders();
  }

  lemma ExampleOffenders()
    ensures var offs := Offenders([1.0, 3.0, 5.0], [1.0], 0);
            |offs| >= 2 && offs[0] == (0, 1) && offs[1] == (0, 2)
  {
    ExampleFirstRow();
    OffendersStartWithRow([1.0, 3.0, 5.0], [1.0], 0);
  }

  lemma OffendersStartWithRow(sizes: seq<real>, lam: seq<real>, i: nat)
    requires NonZero(sizes) && NonZero(lam) && i < |sizes|
    ensures var row := RowOffenders(sizes, lam, i, 0);
            |row| <= |Offenders(sizes, lam, i)| && forall k :: 0 <= k < |row| ==> Offenders(sizes, lam, i)[k] == row[k]
  {
  }

  lemma ExampleFirstRow()
    ensures RowOffenders([1.0, 3.0, 5.0], [1.0], 0, 0) == [(0, 1), (0, 2)]
  {
    var sizes, lam := [1.0, 3.0, 5.0], [1.0];
    ExampleRatios();
    assert RowOffenders(sizes, lam, 0, 3) == [];
    assert RowOffenders(sizes, lam, 0, 2) == [(0, 2)];
    assert RowOffenders(sizes, lam, 0, 1) == [(0, 1), (0, 2)];
  }

  lemma ExampleRatios()
    ensures !Uncovered([1.0, 3.0, 5.0], [1.0], 0, 0)
    ensures Uncovered([1.0, 3.0, 5.0], [1.0], 0, 1) && Uncovered([1.0, 3.0, 5.0], [1.0], 0, 2)
  {
    assert Covered([1.0]) == [1.0, 1.0];
  }

  /** A single particle of size 1 against a table holding only 2: the check
      fails (the ratio 1 is missing), but there is only one offending pair,
      so the source's report indexes past the end. */
  lemma AsWrittenReportOverrunsSingleOffender()
    ensures DoWeHaveAllSizeRatios(false, [1.0], [2.0])
    ensures OffenderReportAsWritten([1.0], [2.0], 1) == None
  {
    var sizes, lam := [1.0], [2.0];
    assert Covered(lam) == [2.0, 0.5];
    assert Uncovered(sizes, lam, 0, 0);
    assert Offenders(sizes, lam, 0) == [(0, 0)];
  }
}
