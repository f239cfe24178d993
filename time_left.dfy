/** `calculate_time_left`: the remaining-time estimate printed after every
    frame, and the colour banding of `format_time_left`. Frames on which the
    far-field matrix is inverted again (every `invert_m_every` frames, and the
    first frame of the run) are "long", the others "short". Whether numba's
    JIT is disabled is a parameter instead of a configuration lookup. */
module TimeLeft {

  /** A frame on which the far-field matrix is (re)inverted. */
  predicate IsLong(i: nat, m: nat, start: nat)
    requires m > 0
  {
    i % m == 0 || i == start
  }

  /** `[times[i] for i in range(lo, hi) if IsLong(i)]`. After the run's
      first frame the long frames are exactly the multiples of m. */
  function LongTimes(times: seq<real>, lo: nat, hi: nat, m: nat, start: nat): (r: seq<real>)
    requires m > 0 && (lo < hi ==> hi <= |times|)
    ensures start < lo ==> |r| == CountMultiples(lo, hi, m)
    decreases hi - lo
  {
    if lo >= hi then []
    else (if IsLong(lo, m, start) then [times[lo]] else []) + LongTimes(times, lo + 1, hi, m, start)
  }

  /** `[times[i] for i in range(lo, hi) if not IsLong(i)]`. After the run's
      first frame the short frames are exactly the non-multiples of m. */
  function ShortTimes(times: seq<real>, lo: nat, hi: nat, m: nat, start: nat): (r: seq<real>)
    requires m > 0 && (lo < hi ==> hi <= |times|)
    ensures start < lo ==> |r| == CountNonMultiples(lo, hi, m)
    decreases hi - lo
  {
    if lo >= hi then []
    else (if IsLong(lo, m, start) then [] else [times[lo]]) + ShortTimes(times, lo + 1, hi, m, start)
  }

  /** How many frames of `range(lo, hi)` are multiples of m. */
  function CountMultiples(lo: nat, hi: nat, m: nat): (c: nat)
    requires m > 0
    ensures c <= if lo < hi then hi - lo else 0
    decreases hi - lo
  {
    if lo >= hi then 0 else (if lo % m == 0 then 1 else 0) + CountMultiples(lo + 1, hi, m)
  }

  /** How many frames of `range(lo, hi)` are not multiples of m: with the
      multiples they account for every frame of the range once. */
  function CountNonMultiples(lo: nat, hi: nat, m: nat): (c: nat)
    requires m > 0
    ensures c + CountMultiples(lo, hi, m) == if lo < hi then hi - lo else 0
    decreases hi - lo
  {
    if lo >= hi then 0 else (if lo % m != 0 then 1 else 0) + CountNonMultiples(lo + 1, hi, m)
  }

  function Sum(s: seq<real>): real {
    if |s| == 0 then 0.0 else s[0] + Sum(s[1..])
  }

  function Mean(s: seq<real>): real
    requires |s| > 0
  {
    Sum(s) / (|s| as real)
  }

  /** The average long time and the `<` flag saying the JIT compilation time
      could not yet be left out of it. With the JIT on, the first long time
      includes compilation and is dropped as soon as there is a second one. */
  function LongTimeAverage(longTimes: seq<real>, jitDisabled: bool): (r: (real, string))
    ensures r.1 == "<" <==> !jitDisabled && |longTimes| == 1
    ensures r.1 == "" || r.1 == "<"
    ensures |longTimes| == 0 ==> r.0 == 0.0
    ensures |longTimes| == 1 ==> r.0 == longTimes[0]
  {
    if !jitDisabled then
      if |longTimes| >= 2 then (Mean(longTimes[1..]), "")
      else if |longTimes| == 1 then (longTimes[0], "<")
      else (0.0, "")
    else
      if |longTimes| > 0 then
        assert |longTimes| == 1 ==> Sum(longTimes) == longTimes[0] + Sum([]);
        (Mean(longTimes), "")
      else (0.0, "")
  }

  /** The average short time, falling back to the long average when no short
      frame has been timed. */
  function ShortTimeAverage(shortTimes: seq<real>, longAverage: real): (r: real)
    ensures |shortTimes| == 0 ==> r == longAverage
  {
    if |shortTimes| != 0 then Mean(shortTimes) else longAverage
  }

  datatype Estimate = Estimate(timeLeft: real, flags: string)

  predicate NonNegative(s: seq<real>) {
    forall i :: 0 <= i < |s| ==> s[i] >= 0.0
  }

  /** The estimate: remaining short and long frames weighted by their
      averages, times the allowance 1.03 for what is not timed; `flags` holds
      a `<` for each reason the estimate may be low. */
  function CalculateTimeLeft(times: seq<real>, frameno: nat, numFrames: nat, invertMEvery: nat,
                             startFrame: nat, jitDisabled: bool): (r: Estimate)
    requires invertMEvery > 0 && (startFrame <= frameno ==> frameno < |times|)
    ensures NonNegative(times) ==> r.timeLeft >= 0.0
    ensures |r.flags| <= 2 && forall c :: c in r.flags ==> c == '<'
  {
    var longTimes := LongTimes(times, startFrame, frameno + 1, invertMEvery, startFrame);
    var shortTimes := ShortTimes(times, startFrame, frameno + 1, invertMEvery, startFrame);
    var longAverage := LongTimeAverage(longTimes, jitDisabled);
    var shortLeft := CountNonMultiples(frameno + 1, numFrames, invertMEvery);
    AveragesNonNegative(times, startFrame, frameno + 1, invertMEvery, jitDisabled);
    ProjectedNonNegative(shortLeft, ShortTimeAverage(shortTimes, longAverage.0),
                         CountMultiples(frameno + 1, numFrames, invertMEvery), longAverage.0);
    Estimate(Projected(shortLeft, ShortTimeAverage(shortTimes, longAverage.0),
                       CountMultiples(frameno + 1, numFrames, invertMEvery), longAverage.0),
             longAverage.1 + (if frameno == startFrame && shortLeft > 0 then "<" else ""))
  }

  /** Remaining short and long frames weighted by their averages, times the
      allowance 1.03 for what is not timed. */
  function Projected(shortLeft: nat, shortAverage: real, longLeft: nat, longAverage: real): real {
    (shortLeft as real * shortAverage + longLeft as real * longAverage) * 1.03
  }

  // ---------------------------------------------------------------------
  // Lemmas

  lemma {:induction false} SumNonNegative(s: seq<real>)
    requires NonNegative(s)
    ensures Sum(s) >= 0.0
  {
    if |s| > 0 {
      SumNonNegative(s[1..]);
    }
  }

  /** Long and short frames split the timed frames of `range(lo, hi)`: the
      two lists hold, together, exactly the times of those frames. */
  lemma {:induction false} FramesPartitioned(times: seq<real>, lo: nat, hi: nat, m: nat, start: nat)
    requires m > 0 && lo <= hi <= |times|
    ensures multiset(LongTimes(times, lo, hi, m, start)) + multiset(ShortTimes(times, lo, hi, m, start))
            == multiset(times[lo..hi])
    ensures |LongTimes(times, lo, hi, m, start)| + |ShortTimes(times, lo, hi, m, start)| == hi - lo
    decreases hi - lo
  {
    if lo < hi {
      FramesPartitioned(times, lo + 1, hi, m, start);
      SliceSplitsOff(times, lo, hi);
    }
  }

  lemma SliceSplitsOff(times: seq<real>, lo: nat, hi: nat)
    requires lo < hi <= |times|
    ensures multiset(times[lo..hi]) == multiset{times[lo]} + multiset(times[lo + 1..hi])
  {
    assert times[lo..hi] == [times[lo]] + times[lo + 1..hi];
  }

  /** The first timed frame of the run is always long. */
  lemma StartFrameIsLong(times: seq<real>, start: nat, hi: nat, m: nat)
    requires m > 0 && start < hi <= |times|
    ensures |LongTimes(times, start, hi, m, start)| >= 1
    ensures LongTimes(times, start, hi, m, start)[0] == times[start]
  {
  }

  /** Both lists of a run whose times are non-negative are non-negative. */
  lemma {:induction false} NonNegativeParts(times: seq<real>, lo: nat, hi: nat, m: nat, start: nat)
    requires m > 0 && (lo < hi ==> hi <= |times|) && NonNegative(times)
    ensures NonNegative(LongTimes(times, lo, hi, m, start))
    ensures NonNegative(ShortTimes(times, lo, hi, m, start))
    decreases hi - lo
  {
    if lo < hi {
      NonNegativeParts(times, lo + 1, hi, m, start);
      var head := [times[lo]];
      ConcatNonNegative(if IsLong(lo, m, start) then head else [], LongTimes(times, lo + 1, hi, m, start));
      ConcatNonNegative(if IsLong(lo, m, start) then [] else head, ShortTimes(times, lo + 1, hi, m, start));
    }
  }

  lemma ConcatNonNegative(a: seq<real>, b: seq<real>)
    requires NonNegative(a) && NonNegative(b)
    ensures NonNegative(a + b)
  {
  }

  lemma AveragesNonNegative(times: seq<real>, start: nat, hi: nat, m: nat, jitDisabled: bool)
    requires m > 0 && (start < hi ==> hi <= |times|)
    ensures NonNegative(times) ==>
              var longAverage := LongTimeAverage(LongTimes(times, start, hi, m, start), jitDisabled).0;
              longAverage >= 0.0 && ShortTimeAverage(ShortTimes(times, start, hi, m, start), longAverage) >= 0.0
  {
    if NonNegative(times) {
      var longTimes := LongTimes(times, start, hi, m, start);
      NonNegativeParts(times, start, hi, m, start);
      LongAverageNonNegative(longTimes, jitDisabled);
      ShortAverageNonNegative(ShortTimes(times, start, hi, m, start), LongTimeAverage(longTimes, jitDisabled).0);
    }
  }

  lemma MeanNonNegative(s: seq<real>)
    requires |s| > 0 && NonNegative(s)
    ensures Mean(s) >= 0.0
  {
    SumNonNegative(s);
  }

  lemma LongAverageNonNegative(longTimes: seq<real>, jitDisabled: bool)
    requires NonNegative(longTimes)
    ensures LongTimeAverage(longTimes, jitDisabled).0 >= 0.0
  {
    if |longTimes| >= 2 {
      MeanNonNegative(longTimes[1..]);
    }
    if |longTimes| > 0 {
      MeanNonNegative(longTimes);
    }
  }

  lemma ShortAverageNonNegative(shortTimes: seq<real>, longAverage: real)
    requires NonNegative(shortTimes) && longAverage >= 0.0
    ensures ShortTimeAverage(shortTimes, longAverage) >= 0.0
  {
    if |shortTimes| > 0 {
      MeanNonNegative(shortTimes);
    }
  }

  /** With the JIT on, the first long time (which includes compilation) is
      left out of the average once a second long time exists; with the JIT
      off it is counted like any other. */
  lemma CompilationTimeLeftOut(a: seq<real>, b: seq<real>)
    requires |a| == |b| >= 2 && a[1..] == b[1..] && a[0] < b[0]
    ensures LongTimeAverage(a, false).0 == LongTimeAverage(b, false).0
    ensures LongTimeAverage(a, true).0 < LongTimeAverage(b, true).0
  {
    assert Sum(a) < Sum(b);
    QuotientLess(Sum(a), Sum(b), |a| as real);
  }

  lemma QuotientLess(x: real, y: real, n: real)
    requires x < y && n > 0.0
    ensures x / n < y / n
  {
  }

  /** No frame of `range(lo, hi)` is a multiple of m exactly when none was
      counted. */
  lemma {:induction false} NoMultiplesIff(lo: nat, hi: nat, m: nat)
    requires m > 0
    ensures CountMultiples(lo, hi, m) == 0 <==> forall i: nat :: lo <= i < hi ==> i % m != 0
    decreases hi - lo
  {
    if lo < hi {
      NoMultiplesIff(lo + 1, hi, m);
    }
  }

  /** Some frame of `range(lo, hi)` is not a multiple of m exactly when one
      was counted. */
  lemma {:induction false} SomeNonMultipleIff(lo: nat, hi: nat, m: nat)
    requires m > 0
    ensures CountNonMultiples(lo, hi, m) > 0 <==> exists i: nat :: lo <= i < hi && i % m != 0
    decreases hi - lo
  {
    if lo < hi {
      SomeNonMultipleIff(lo + 1, hi, m);
    }
  }

  /** How many frames of `range(lo, hi)` are long. */
  function LongCount(lo: nat, hi: nat, m: nat, start: nat): (c: nat)
    requires m > 0
    ensures c <= if lo < hi then hi - lo else 0
    decreases hi - lo
  {
    if lo >= hi then 0 else (if IsLong(lo, m, start) then 1 else 0) + LongCount(lo + 1, hi, m, start)
  }

  /** The long list holds the times of the long frames of `range(lo, hi)`, in
      frame order and nothing else: the time of long frame k sits at the
      position given by the number of long frames before it. */
  lemma {:induction false} LongTimesExact(times: seq<real>, lo: nat, hi: nat, m: nat, start: nat)
    requires m > 0 && lo <= hi <= |times|
    ensures |LongTimes(times, lo, hi, m, start)| == LongCount(lo, hi, m, start)
    ensures forall k: nat :: lo <= k < hi && IsLong(k, m, start) ==>
              LongCount(lo, k, m, start) < |LongTimes(times, lo, hi, m, start)| &&
              LongTimes(times, lo, hi, m, start)[LongCount(lo, k, m, start)] == times[k]
    decreases hi - lo
  {
    if lo < hi {
      LongTimesExact(times, lo + 1, hi, m, start);
      var r := LongTimes(times, lo, hi, m, start);
      var head := if IsLong(lo, m, start) then [times[lo]] else [];
      assert r == head + LongTimes(times, lo + 1, hi, m, start);
      forall k: nat | lo <= k < hi && IsLong(k, m, start)
        ensures LongCount(lo, k, m, start) < |r| && r[LongCount(lo, k, m, start)] == times[k]
      {
        if k > lo {
          assert LongCount(lo, k, m, start) == |head| + LongCount(lo + 1, k, m, start);
        }
      }
    }
  }

  /** The short list holds the times of the short frames of `range(lo, hi)`,
      in frame order and nothing else: the time of short frame k sits at the
      position given by the number of short frames before it. */
  lemma {:induction false} ShortTimesExact(times: seq<real>, lo: nat, hi: nat, m: nat, start: nat)
    requires m > 0 && lo <= hi <= |times|
    ensures |ShortTimes(times, lo, hi, m, start)| == (hi - lo) - LongCount(lo, hi, m, start)
    ensures forall k: nat :: lo <= k < hi && !IsLong(k, m, start) ==>
              (k - lo) - LongCount(lo, k, m, start) < |ShortTimes(times, lo, hi, m, start)| &&
              ShortTimes(times, lo, hi, m, start)[(k - lo) - LongCount(lo, k, m, start)] == times[k]
    decreases hi - lo
  {
    if lo < hi {
      ShortTimesExact(times, lo + 1, hi, m, start);
      var r := ShortTimes(times, lo, hi, m, start);
      var head := if IsLong(lo, m, start) then [] else [times[lo]];
      assert r == head + ShortTimes(times, lo + 1, hi, m, start);
      forall k: nat | lo <= k < hi && !IsLong(k, m, start)
        ensures (k - lo) - LongCount(lo, k, m, start) < |r| && r[(k - lo) - LongCount(lo, k, m, start)] == times[k]
      {
        if k > lo {
          assert LongCount(lo, k, m, start) == (if IsLong(lo, m, start) then 1 else 0) + LongCount(lo + 1, k, m, start);
        }
      }
    }
  }

  /** `CountMultiples` counts the multiples of m in `range(lo, hi)`. */
  lemma {:induction false} CountMultiplesCard(lo: nat, hi: nat, m: nat)
    requires m > 0
    ensures CountMultiples(lo, hi, m) == |set i: nat | lo <= i < hi && i % m == 0|
    decreases hi - lo
  {
    var all := set i: nat | lo <= i < hi && i % m == 0;
    if lo < hi {
      CountMultiplesCard(lo + 1, hi, m);
      var rest := set i: nat | lo + 1 <= i < hi && i % m == 0;
      if lo % m == 0 {
        assert all == {lo} + rest;
      } else {
        assert all == rest;
      }
    } else {
      assert all == {};
    }
  }

  /** `CountNonMultiples` counts the non-multiples of m in `range(lo, hi)`. */
  lemma {:induction false} CountNonMultiplesCard(lo: nat, hi: nat, m: nat)
    requires m > 0
    ensures CountNonMultiples(lo, hi, m) == |set i: nat | lo <= i < hi && i % m != 0|
    decreases hi - lo
  {
    var all := set i: nat | lo <= i < hi && i % m != 0;
    if lo < hi {
      CountNonMultiplesCard(lo + 1, hi, m);
      var rest := set i: nat | lo + 1 <= i < hi && i % m != 0;
      if lo % m != 0 {
        assert all == {lo} + rest;
      } else {
        assert all == rest;
      }
    } else {
      assert all == {};
    }
  }

  /** The two `<` flags: the first says the JIT is on and the run's first
      frame is still its only long frame (so compilation time is in the long
      average); the second says this is the run's first frame and short frames
      lie ahead whose time was never measured. */
  lemma FlagsMeaning(times: seq<real>, frameno: nat, numFrames: nat, m: nat, start: nat, jitDisabled: bool)
    requires m > 0 && (start <= frameno ==> frameno < |times|)
    ensures var compilation := !jitDisabled && start <= frameno &&
                               forall i: nat :: start < i <= frameno ==> i % m != 0;
            var noShortTimes := frameno == start && exists i: nat :: frameno < i < numFrames && i % m != 0;
            CalculateTimeLeft(times, frameno, numFrames, m, start, jitDisabled).flags ==
              (if compilation then "<" else "") + (if noShortTimes then "<" else "")
  {
    var longTimes := LongTimes(times, start, frameno + 1, m, start);
    SomeNonMultipleIff(frameno + 1, numFrames, m);
    if start <= frameno {
      NoMultiplesIff(start + 1, frameno + 1, m);
      assert |longTimes| == 1 + CountMultiples(start + 1, frameno + 1, m);
    }
  }

  lemma {:induction false} SumConstant(s: seq<real>, t: real)
    requires forall i :: 0 <= i < |s| ==> s[i] == t
    ensures Sum(s) == (|s| as real) * t
  {
    if |s| > 0 {
      SumConstant(s[1..], t);
    }
  }

  lemma MeanConstant(s: seq<real>, t: real)
    requires |s| > 0 && forall i :: 0 <= i < |s| ==> s[i] == t
    ensures Mean(s) == t
  {
    SumConstant(s, t);
  }

  lemma {:induction false} ConstantParts(times: seq<real>, lo: nat, hi: nat, m: nat, start: nat, t: real)
    requires m > 0 && (lo < hi ==> hi <= |times|)
    requires forall i :: 0 <= i < |times| ==> times[i] == t
    ensures forall i :: 0 <= i < |LongTimes(times, lo, hi, m, start)| ==> LongTimes(times, lo, hi, m, start)[i] == t
    ensures forall i :: 0 <= i < |ShortTimes(times, lo, hi, m, start)| ==> ShortTimes(times, lo, hi, m, start)[i] == t
    decreases hi - lo
  {
    if lo < hi {
      ConstantParts(times, lo + 1, hi, m, start, t);
    }
  }

  /** With every frame taking the same time t, both averages are t. */
  lemma UniformAverages(times: seq<real>, hi: nat, m: nat, start: nat, jitDisabled: bool, t: real)
    requires m > 0 && start < hi <= |times|
    requires forall i :: 0 <= i < |times| ==> times[i] == t
    ensures var longAverage := LongTimeAverage(LongTimes(times, start, hi, m, start), jitDisabled).0;
            longAverage == t && ShortTimeAverage(ShortTimes(times, start, hi, m, start), longAverage) == t
  {
    var longTimes := LongTimes(times, start, hi, m, start);
    ConstantParts(times, start, hi, m, start, t);
    StartFrameIsLong(times, start, hi, m);
    LongAverageConstant(longTimes, jitDisabled, t);
    ShortAverageConstant(ShortTimes(times, start, hi, m, start), t);
  }

  lemma LongAverageConstant(longTimes: seq<real>, jitDisabled: bool, t: real)
    requires |longTimes| > 0 && forall i :: 0 <= i < |longTimes| ==> longTimes[i] == t
    ensures LongTimeAverage(longTimes, jitDisabled).0 == t
  {
    if |longTimes| >= 2 {
      MeanConstant(longTimes[1..], t);
    }
    MeanConstant(longTimes, t);
  }

  lemma ShortAverageConstant(shortTimes: seq<real>, t: real)
    requires forall i :: 0 <= i < |shortTimes| ==> shortTimes[i] == t
    ensures ShortTimeAverage(shortTimes, t) == t
  {
    if |shortTimes| > 0 {
      MeanConstant(shortTimes, t);
    }
  }

  /** The frames after `frameno` of a run of `numFrames` frames. */
  function FramesAfter(frameno: nat, numFrames: nat): nat {
    if frameno + 1 < numFrames then numFrames - frameno - 1 else 0
  }

  /** With every frame taking the same time t, the estimate is 1.03 t per
      remaining frame, whichever class the frames fall in. */
  lemma UniformTimesEstimate(times: seq<real>, frameno: nat, numFrames: nat, m: nat, start: nat,
                             jitDisabled: bool, t: real)
    requires m > 0 && start <= frameno < |times|
    requires forall i :: 0 <= i < |times| ==> times[i] == t
    ensures CalculateTimeLeft(times, frameno, numFrames, m, start, jitDisabled).timeLeft ==
              1.03 * t * (FramesAfter(frameno, numFrames) as real)
  {
    var hi := frameno + 1;
    var longLeft := CountMultiples(hi, numFrames, m);
    var shortLeft := CountNonMultiples(hi, numFrames, m);
    var longAverage := LongTimeAverage(LongTimes(times, start, hi, m, start), jitDisabled).0;
    var shortAverage := ShortTimeAverage(ShortTimes(times, start, hi, m, start), longAverage);
    var timeLeft := CalculateTimeLeft(times, frameno, numFrames, m, start, jitDisabled).timeLeft;
    assert timeLeft == Projected(shortLeft, shortAverage, longLeft, longAverage) by {
      TimeLeftUnfolded(times, frameno, numFrames, m, start, jitDisabled);
    }
    assert shortAverage == t && longAverage == t by {
      UniformAverages(times, hi, m, start, jitDisabled, t);
    }
    ProjectedUniform(shortLeft, shortAverage, longLeft, longAverage, FramesAfter(frameno, numFrames), t);
  }

  /** No short frame has been timed exactly when every timed frame is long. */
  lemma {:induction false} NoShortTimesIff(times: seq<real>, lo: nat, hi: nat, m: nat, start: nat)
    requires m > 0 && (lo < hi ==> hi <= |times|)
    ensures |ShortTimes(times, lo, hi, m, start)| == 0 <==> forall i: nat :: lo <= i < hi ==> IsLong(i, m, start)
    decreases hi - lo
  {
    if lo < hi {
      NoShortTimesIff(times, lo + 1, hi, m, start);
    }
  }

  /** While every frame since the start of the run has been a long one, the
      short average falls back to the long average, so every remaining frame
      is priced at the long average. */
  lemma ShortAverageFallsBack(times: seq<real>, frameno: nat, numFrames: nat, m: nat, start: nat, jitDisabled: bool)
    requires m > 0 && start <= frameno < |times|
    requires forall i: nat :: start < i <= frameno ==> i % m == 0
    ensures var longAverage := LongTimeAverage(LongTimes(times, start, frameno + 1, m, start), jitDisabled).0;
            CalculateTimeLeft(times, frameno, numFrames, m, start, jitDisabled).timeLeft ==
              1.03 * longAverage * (FramesAfter(frameno, numFrames) as real)
  {
    NoShortTimesIff(times, start, frameno + 1, m, start);
    AllLongEstimate(times, frameno, numFrames, m, start, jitDisabled);
  }

  lemma AllLongEstimate(times: seq<real>, frameno: nat, numFrames: nat, m: nat, start: nat, jitDisabled: bool)
    requires m > 0 && start <= frameno < |times|
    requires |ShortTimes(times, start, frameno + 1, m, start)| == 0
    ensures var longAverage := LongTimeAverage(LongTimes(times, start, frameno + 1, m, start), jitDisabled).0;
            CalculateTimeLeft(times, frameno, numFrames, m, start, jitDisabled).timeLeft ==
              1.03 * longAverage * (FramesAfter(frameno, numFrames) as real)
  {
    var hi := frameno + 1;
    var longAverage := LongTimeAverage(LongTimes(times, start, hi, m, start), jitDisabled).0;
    var shortAverage := ShortTimeAverage(ShortTimes(times, start, hi, m, start), longAverage);
    var shortLeft := CountNonMultiples(hi, numFrames, m);
    var longLeft := CountMultiples(hi, numFrames, m);
    assert CalculateTimeLeft(times, frameno, numFrames, m, start, jitDisabled).timeLeft ==
             Projected(shortLeft, shortAverage, longLeft, longAverage) by {
      TimeLeftUnfolded(times, frameno, numFrames, m, start, jitDisabled);
    }
    ProjectedUniform(shortLeft, shortAverage, longLeft, longAverage, FramesAfter(frameno, numFrames), longAverage);
  }

  lemma TimeLeftUnfolded(times: seq<real>, frameno: nat, numFrames: nat, m: nat, start: nat, jitDisabled: bool)
    requires m > 0 && (start <= frameno ==> frameno < |times|)
    ensures var longAverage := LongTimeAverage(LongTimes(times, start, frameno + 1, m, start), jitDisabled).0;
            CalculateTimeLeft(times, frameno, numFrames, m, start, jitDisabled).timeLeft ==
              Projected(CountNonMultiples(frameno + 1, numFrames, m),
                        ShortTimeAverage(ShortTimes(times, start, frameno + 1, m, start), longAverage),
                        CountMultiples(frameno + 1, numFrames, m), longAverage)
  {
  }

  lemma ProjectedNonNegative(shortLeft: nat, shortAverage: real, longLeft: nat, longAverage: real)
    ensures shortAverage >= 0.0 && longAverage >= 0.0 ==> Projected(shortLeft, shortAverage, longLeft, longAverage) >= 0.0
  {
  }

  lemma ProjectedUniform(shortLeft: nat, shortAverage: real, longLeft: nat, longAverage: real, left: nat, t: real)
    requires shortAverage == t && longAverage == t && shortLeft + longLeft == left
    ensures Projected(shortLeft, shortAverage, longLeft, longAverage) == 1.03 * t * (left as real)
  {
  }

  // ---------------------------------------------------------------------
  // format_time_left

  /** The colour band of an estimate in seconds: 0 up to ten minutes, then
      one hour, five hours, a day, and above. */
  function Band(timeLeft: real): (b: nat)
    ensures b <= 4
    ensures b == 0 <==> timeLeft <= 600.0
    ensures b == 1 <==> 600.0 < timeLeft <= 3600.0
    ensures b == 2 <==> 3600.0 < timeLeft <= 18000.0
    ensures b == 3 <==> 18000.0 < timeLeft <= 86400.0
    ensures b == 4 <==> 86400.0 < timeLeft
  {
    if timeLeft > 86400.0 then 4
    else if timeLeft > 18000.0 then 3
    else if timeLeft > 3600.0 then 2
    else if timeLeft > 600.0 then 1
    else 0
  }

  /** The ANSI colour opening each band. */
  function BandColour(b: nat): string
    requires b <= 4
  {
    ["\U{1B}[92m", "\U{1B}[93m", "\U{1B}[91m", "\U{1B}[95m", "\U{1B}[94m"][b]
  }

  const EndColour: string := "\U{1B}[0m"

  /** A longer estimate never lands in an earlier band, and no two bands
      share a colour. */
  lemma BandsOrdered(t1: real, t2: real)
    ensures t1 <= t2 ==> Band(t1) <= Band(t2)
    ensures Band(t1) != Band(t2) ==> BandColour(Band(t1)) != BandColour(Band(t2))
  {
  }

  /** The formatted estimate: colour, flags, the text of the elapsed-time
      formatter (outside the model, passed in) and the reset code. */
  function FormatTimeLeft(timeLeft: real, flags: string, formattedTime: string): (s: string)
    ensures |s| == |BandColour(Band(timeLeft))| + |flags| + |formattedTime| + |EndColour|
    ensures s[..|BandColour(Band(timeLeft))|] == BandColour(Band(timeLeft))
    ensures s[|s| - |EndColour|..] == EndColour
    ensures s[|BandColour(Band(timeLeft))|..|s| - |EndColour|] == flags + formattedTime
  {
    BandColour(Band(timeLeft)) + flags + formattedTime + EndColour
  }
}
