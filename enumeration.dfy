/** The generator `iterateFixedQuantity(totalQuantity, interval, numDimensions)`: one live
    configuration list that every step changes in place, and the runs of snapshots it yields.
    Line numbers in the comments below refer to fractional-allocation-solver.py. */
module Enumeration {
  import opened Simplex
  import opened SimplexRank

  /** The generator's state. The constructor builds the list and stands for the first
      `yield`; `HasNext` is the `while` test; `Next` is one pass of the `while` body, after
      which the generator yields the same list again. */
  class Enumerator {
    const totalQuantity: real
    const interval: real
    const configuration: array<real>

    /** Either the list is admissible (a positive interval), or it is still the first
        configuration and the `while` test already fails on it. */
    ghost predicate Valid()
      reads configuration
    {
      || Admissible(configuration[..], totalQuantity, interval)
      || (configuration[..] == Initial(totalQuantity, configuration.Length)
          && !Guard(configuration[..], totalQuantity, interval))
    }

    /** The distance the termination argument measures; it drops with every step. */
    ghost function Remaining(): (r: nat)
      reads configuration
      requires Valid()
    {
      if Admissible(configuration[..], totalQuantity, interval)
      then SimplexRank.Remaining(configuration[..], totalQuantity, interval)
      else 0
    }

    /** Lines 14-18: the list starts as `[totalQuantity]` followed by one zero for every
        further dimension. The loop runs forever when the interval is not positive and the
        `while` test holds at once, so that case is excluded. */
    constructor (totalQuantity: real, interval: real, numDimensions: int)
      requires interval > 0.0 || !Guard(Initial(totalQuantity, numDimensions), totalQuantity, interval)
      ensures Valid() && fresh(configuration)
      ensures this.totalQuantity == totalQuantity && this.interval == interval
      ensures configuration[..] == Initial(totalQuantity, numDimensions)
    {
      this.totalQuantity := totalQuantity;
      this.interval := interval;
      var list := new real[Width(numDimensions)];
      list[0] := totalQuantity;
      for d := 1 to list.Length
        invariant list[0] == totalQuantity
        invariant forall k :: 1 <= k < d ==> list[k] == 0.0
      {
        list[d] := 0.0;
      }
      configuration := list;
      new;
      assert configuration[..] == Initial(totalQuantity, numDimensions);
      if interval > 0.0 {
        InitialIsAdmissible(totalQuantity, interval, numDimensions);
      }
    }

    /** Line 20: the last entry is still more than one interval short of the total. */
    predicate HasNext()
      reads configuration
      requires configuration.Length >= 1
      ensures HasNext() <==> Guard(configuration[..], totalQuantity, interval)
    {
      totalQuantity - configuration[configuration.Length - 1] > interval
    }

    /** Lines 21-27: scan the digits from 1 up, grow the first one with room and stop, or
        reset it and carry; then recompute entry 0 as the residual. */
    method Next()
      requires Valid() && HasNext()
      modifies configuration
      ensures Valid()
      ensures configuration[..] == Step(old(configuration[..]), totalQuantity, interval)
      ensures Remaining() < old(Remaining())
    {
      ghost var before := configuration[..];
      assert Guard(before, totalQuantity, interval);
      StepLowersRemaining(before, totalQuantity, interval);
      for d := 1 to configuration.Length
        invariant Scan(configuration[..], d, totalQuantity, interval) == Scan(before, 1, totalQuantity, interval)
      {
        var rest := Sum(d, configuration);
        if totalQuantity - rest > interval {
          configuration[d] := configuration[d] + interval;
          assert configuration[..] == Scan(before, 1, totalQuantity, interval);
          break;
        } else {
          configuration[d] := 0.0;
        }
      }
      assert configuration[..] == Scan(before, 1, totalQuantity, interval);
      var digits := Sum(1, configuration);
      configuration[0] := totalQuantity - digits;
    }
  }

  /** `s` is what the generator has yielded so far: the first configuration, and each later
      one the step from the one before, taken while the `while` test held. */
  ghost predicate IsRun(s: seq<seq<real>>, totalQuantity: real, interval: real, numDimensions: int)
  {
    && |s| >= 1
    && s[0] == Initial(totalQuantity, numDimensions)
    && forall i :: 0 <= i < |s| - 1 ==> Guard(s[i], totalQuantity, interval) && s[i + 1] == Step(s[i], totalQuantity, interval)
  }

  /** `s` is everything the generator yields: a run after whose last configuration the
      `while` test fails. */
  ghost predicate IsEnumeration(s: seq<seq<real>>, totalQuantity: real, interval: real, numDimensions: int)
  {
    IsRun(s, totalQuantity, interval, numDimensions) && !Guard(s[|s| - 1], totalQuantity, interval)
  }

  /** A run whose last configuration passes the `while` test goes on with its step. */
  lemma RunExtends(s: seq<seq<real>>, next: seq<real>, totalQuantity: real, interval: real, numDimensions: int)
    requires IsRun(s, totalQuantity, interval, numDimensions)
    requires Guard(s[|s| - 1], totalQuantity, interval) && next == Step(s[|s| - 1], totalQuantity, interval)
    ensures IsRun(s + [next], totalQuantity, interval, numDimensions)
  {
    var longer := s + [next];
    assert forall k :: 0 <= k < |s| ==> longer[k] == s[k];
  }

  /** Every yielded configuration has one entry per dimension, entries that add up to the
      total, digits that are non-negative whole multiples of the interval, and after the first
      one a strictly positive residual in entry 0. */
  lemma {:induction false} RunInvariants(s: seq<seq<real>>, totalQuantity: real, interval: real, numDimensions: int)
    requires interval > 0.0 && IsRun(s, totalQuantity, interval, numDimensions)
    ensures forall i :: 0 <= i < |s| ==>
      && |s[i]| == Width(numDimensions)
      && Admissible(s[i], totalQuantity, interval)
      && SumFrom(0, s[i]) == totalQuantity
      && (i > 0 ==> s[i][0] > 0.0)
  {
    if |s| == 1 {
      InitialIsAdmissible(totalQuantity, interval, numDimensions);
    } else {
      var prefix := s[..|s| - 1];
      assert IsRun(prefix, totalQuantity, interval, numDimensions);
      RunInvariants(prefix, totalQuantity, interval, numDimensions);
      var last := s[|s| - 2];
      assert Admissible(last, totalQuantity, interval);
      StepKeepsAdmissible(last, totalQuantity, interval);
      StepSumsToTotal(last, totalQuantity, interval);
      assert forall i :: 0 <= i < |s| - 1 ==> s[i] == prefix[i];
    }
  }

  /** Every yielded configuration has one entry per dimension and allocates the whole total.
      The part of `RunInvariants` that callers outside this module use, stated on its own. */
  lemma RunSumsToTotal(s: seq<seq<real>>, totalQuantity: real, interval: real, numDimensions: int)
    requires interval > 0.0 && IsRun(s, totalQuantity, interval, numDimensions)
    ensures forall i :: 0 <= i < |s| ==> |s[i]| == Width(numDimensions) && SumFrom(0, s[i]) == totalQuantity
  {
    RunInvariants(s, totalQuantity, interval, numDimensions);
  }

  /** For a non-negative total, no yielded configuration has a negative entry. */
  lemma RunEntriesNonNegative(s: seq<seq<real>>, totalQuantity: real, interval: real, numDimensions: int)
    requires interval > 0.0 && totalQuantity >= 0.0 && IsRun(s, totalQuantity, interval, numDimensions)
    ensures forall i, k :: 0 <= i < |s| && 0 <= k < |s[i]| ==> s[i][k] >= 0.0
  {
    RunInvariants(s, totalQuantity, interval, numDimensions);
    forall i, k | 0 <= i < |s| && 0 <= k < |s[i]|
      ensures s[i][k] >= 0.0
    {
      if k == 0 && s[i][0] <= 0.0 {
        assert s[i] == Initial(totalQuantity, |s[i]|);
      }
    }
  }

  /** Every step of a run moves the digit tuple strictly forward in lexicographic order. */
  lemma RunMovesForward(s: seq<seq<real>>, totalQuantity: real, interval: real, numDimensions: int)
    requires interval > 0.0 && IsRun(s, totalQuantity, interval, numDimensions)
    ensures forall i :: 0 <= i < |s| - 1 ==> ColexLess(s[i], s[i + 1])
  {
    RunInvariants(s, totalQuantity, interval, numDimensions);
    forall i | 0 <= i < |s| - 1
      ensures ColexLess(s[i], s[i + 1])
    {
      StepKeepsAdmissible(s[i], totalQuantity, interval);
      StepIsColexGreater(s[i], totalQuantity, interval);
    }
  }

  /** Later configurations of a run are strictly closer to the bound, so no configuration
      is yielded twice. The first ensures repeats admissibility from `RunInvariants`, which
      the induction needs to state the measure. */
  lemma {:induction false} RunHasNoRepeats(s: seq<seq<real>>, totalQuantity: real, interval: real, numDimensions: int)
    requires interval > 0.0 && IsRun(s, totalQuantity, interval, numDimensions)
    ensures forall i :: 0 <= i < |s| ==> Admissible(s[i], totalQuantity, interval)
    ensures forall i, j :: 0 <= i < j < |s| ==>
      Remaining(s[j], totalQuantity, interval) < Remaining(s[i], totalQuantity, interval)
    ensures forall i, j :: 0 <= i < j < |s| ==> s[i] != s[j]
  {
    RunInvariants(s, totalQuantity, interval, numDimensions);
    if |s| > 1 {
      var prefix := s[..|s| - 1];
      assert IsRun(prefix, totalQuantity, interval, numDimensions);
      RunHasNoRepeats(prefix, totalQuantity, interval, numDimensions);
      assert forall i :: 0 <= i < |s| - 1 ==> s[i] == prefix[i];
      StepLowersRemaining(s[|s| - 2], totalQuantity, interval);
    }
  }

  /** Every admissible configuration with one entry per dimension is yielded: the first
      configuration opens the run, and any other is the step of its predecessor, which has
      a smaller rank, is yielded by induction and passes the `while` test, so the run goes
      on to its step. */
  lemma {:induction false} AdmissibleIsYielded(s: seq<seq<real>>, c: seq<real>, totalQuantity: real, interval: real, numDimensions: int)
    requires IsEnumeration(s, totalQuantity, interval, numDimensions)
    requires |c| == Width(numDimensions) && Admissible(c, totalQuantity, interval)
    ensures c in s
    decreases Rank(c, 1, interval, Base(totalQuantity, interval))
  {
    var first := Initial(totalQuantity, numDimensions);
    if c == Initial(totalQuantity, |c|) {
      assert forall j :: 0 <= j < |c| ==> c[j] == first[j];
      assert c == s[0];
    } else {
      StepHasPredecessor(c, totalQuantity, interval);
      var b :| && |b| == |c|
               && Admissible(b, totalQuantity, interval)
               && Guard(b, totalQuantity, interval)
               && Step(b, totalQuantity, interval) == c;
      var base := Base(totalQuantity, interval);
      StepRaisesRank(b, totalQuantity, interval);
      DigitsBelowBase(b, totalQuantity, interval);
      RankBound(b, 1, interval, base);
      AdmissibleIsYielded(s, b, totalQuantity, interval, numDimensions);
      var i :| 0 <= i < |s| && s[i] == b;
      assert i < |s| - 1;
      assert s[i + 1] == c;
    }
  }

  /** The generator yields exactly the admissible configurations with one entry per
      dimension: digits that are non-negative whole multiples of the interval, entry 0 the
      rest of the total, and a positive residual unless it is the first configuration. */
  lemma EnumerationCovers(s: seq<seq<real>>, totalQuantity: real, interval: real, numDimensions: int)
    requires interval > 0.0 && IsEnumeration(s, totalQuantity, interval, numDimensions)
    ensures forall c :: c in s <==> |c| == Width(numDimensions) && Admissible(c, totalQuantity, interval)
  {
    RunInvariants(s, totalQuantity, interval, numDimensions);
    forall c | |c| == Width(numDimensions) && Admissible(c, totalQuantity, interval)
      ensures c in s
    {
      AdmissibleIsYielded(s, c, totalQuantity, interval, numDimensions);
    }
  }

  /** The generator is deterministic: two complete enumerations for the same arguments are
      the same sequence. */
  lemma {:induction false} EnumerationIsUnique(a: seq<seq<real>>, b: seq<seq<real>>, totalQuantity: real, interval: real, numDimensions: int)
    requires IsEnumeration(a, totalQuantity, interval, numDimensions)
    requires IsEnumeration(b, totalQuantity, interval, numDimensions)
    ensures a == b
  {
    var k := 0;
    while k < |a| - 1 && k < |b| - 1
      invariant 0 <= k < |a| && k < |b|
      invariant a[..k + 1] == b[..k + 1]
    {
      assert a[k] == b[k];
      k := k + 1;
    }
    assert a[k] == b[k];
    assert Guard(a[k], totalQuantity, interval) == (k < |a| - 1);
    assert Guard(b[k], totalQuantity, interval) == (k < |b| - 1);
    assert a == a[..k + 1] && b == b[..k + 1];
  }

  /** Every run can be continued to a complete enumeration: the generator always stops. */
  lemma {:induction false} RunEndsInEnumeration(s: seq<seq<real>>, totalQuantity: real, interval: real, numDimensions: int)
    requires interval > 0.0 && IsRun(s, totalQuantity, interval, numDimensions)
    ensures exists e :: IsEnumeration(e, totalQuantity, interval, numDimensions) && s <= e
    decreases (RunInvariants(s, totalQuantity, interval, numDimensions); Remaining(s[|s| - 1], totalQuantity, interval))
  {
    RunInvariants(s, totalQuantity, interval, numDimensions);
    var last := s[|s| - 1];
    if Guard(last, totalQuantity, interval) {
      var longer := s + [Step(last, totalQuantity, interval)];
      assert IsRun(longer, totalQuantity, interval, numDimensions);
      StepLowersRemaining(last, totalQuantity, interval);
      RunEndsInEnumeration(longer, totalQuantity, interval, numDimensions);
      var e :| IsEnumeration(e, totalQuantity, interval, numDimensions) && longer <= e;
      assert s <= e;
    } else {
      assert IsEnumeration(s, totalQuantity, interval, numDimensions);
    }
  }

  /** With a single dimension the list is just `[totalQuantity]` and only it is yielded. */
  lemma {:induction false} SingleDimensionYieldsOnce(s: seq<seq<real>>, totalQuantity: real, interval: real, numDimensions: int)
    requires numDimensions <= 1
    requires IsEnumeration(s, totalQuantity, interval, numDimensions)
    ensures s == [[totalQuantity]]
  {
    var i := 0;
    while i < |s| - 1
      invariant 0 <= i < |s|
      invariant forall k :: 0 <= k <= i ==> s[k] == [totalQuantity]
    {
      assert s[i + 1] == Step(s[i], totalQuantity, interval);
      assert Scan(s[i], 1, totalQuantity, interval) == [totalQuantity];
      i := i + 1;
    }
    assert s[0] == s[|s| - 1];
  }

  /** The fifteen configurations yielded for a total of 10 in steps of 2 over three uses. */
  function TenInStepsOfTwo(): seq<seq<real>>
  {
    [ [10.0, 0.0, 0.0], [8.0, 2.0, 0.0], [6.0, 4.0, 0.0], [4.0, 6.0, 0.0], [2.0, 8.0, 0.0],
      [8.0, 0.0, 2.0], [6.0, 2.0, 2.0], [4.0, 4.0, 2.0], [2.0, 6.0, 2.0],
      [6.0, 0.0, 4.0], [4.0, 2.0, 4.0], [2.0, 4.0, 4.0],
      [4.0, 0.0, 6.0], [2.0, 2.0, 6.0],
      [2.0, 0.0, 8.0] ]
  }

  /** The first five steps for a total of 10 in steps of 2: digit 1 grows to 8, then carries. */
  lemma TenInStepsOfTwoFirstSteps()
    ensures forall i :: 0 <= i < 5 ==>
      Guard(TenInStepsOfTwo()[i], 10.0, 2.0) && Step(TenInStepsOfTwo()[i], 10.0, 2.0) == TenInStepsOfTwo()[i + 1]
  {
    var e := TenInStepsOfTwo();
    assert Step(e[0], 10.0, 2.0) == e[1];
    assert Step(e[1], 10.0, 2.0) == e[2];
    assert Step(e[2], 10.0, 2.0) == e[3];
    assert Step(e[3], 10.0, 2.0) == e[4];
    assert SumFrom(1, e[4]) == 8.0 && e[4][1 := 0.0] == [2.0, 0.0, 0.0];
    assert SumFrom(2, [2.0, 0.0, 0.0]) == 0.0;
    assert Scan(e[4], 1, 10.0, 2.0) == Scan([2.0, 0.0, 0.0], 2, 10.0, 2.0) == [2.0, 0.0, 2.0];
    assert Step(e[4], 10.0, 2.0) == e[5];
  }

  lemma TenInStepsOfTwoMiddleSteps()
    ensures forall i :: 5 <= i < 10 ==>
      Guard(TenInStepsOfTwo()[i], 10.0, 2.0) && Step(TenInStepsOfTwo()[i], 10.0, 2.0) == TenInStepsOfTwo()[i + 1]
  {
    var e := TenInStepsOfTwo();
    assert Step(e[5], 10.0, 2.0) == e[6];
    assert Step(e[6], 10.0, 2.0) == e[7];
    assert Step(e[7], 10.0, 2.0) == e[8];
    assert SumFrom(1, e[8]) == 8.0 && e[8][1 := 0.0] == [2.0, 0.0, 2.0];
    assert SumFrom(2, [2.0, 0.0, 2.0]) == 2.0;
    assert Scan(e[8], 1, 10.0, 2.0) == Scan([2.0, 0.0, 2.0], 2, 10.0, 2.0) == [2.0, 0.0, 4.0];
    assert Step(e[8], 10.0, 2.0) == e[9];
    assert Step(e[9], 10.0, 2.0) == e[10];
  }

  lemma TenInStepsOfTwoLastSteps()
    ensures forall i :: 10 <= i < 14 ==>
      Guard(TenInStepsOfTwo()[i], 10.0, 2.0) && Step(TenInStepsOfTwo()[i], 10.0, 2.0) == TenInStepsOfTwo()[i + 1]
    ensures !Guard(TenInStepsOfTwo()[14], 10.0, 2.0)
  {
    var e := TenInStepsOfTwo();
    assert Step(e[10], 10.0, 2.0) == e[11];
    assert SumFrom(1, e[11]) == 8.0 && e[11][1 := 0.0] == [2.0, 0.0, 4.0];
    assert SumFrom(2, [2.0, 0.0, 4.0]) == 4.0;
    assert Scan(e[11], 1, 10.0, 2.0) == Scan([2.0, 0.0, 4.0], 2, 10.0, 2.0) == [2.0, 0.0, 6.0];
    assert Step(e[11], 10.0, 2.0) == e[12];
    assert Step(e[12], 10.0, 2.0) == e[13];
    assert SumFrom(1, e[13]) == 8.0 && e[13][1 := 0.0] == [2.0, 0.0, 6.0];
    assert SumFrom(2, [2.0, 0.0, 6.0]) == 6.0;
    assert Scan(e[13], 1, 10.0, 2.0) == Scan([2.0, 0.0, 6.0], 2, 10.0, 2.0) == [2.0, 0.0, 8.0];
    assert Step(e[13], 10.0, 2.0) == e[14];
  }

  /** For a total of 10 in steps of 2 over three uses the generator yields exactly fifteen
      configurations, from [10, 0, 0] to [2, 0, 8]; it never reaches [0, 0, 10] or any other
      configuration with nothing left in entry 0. */
  lemma TenInStepsOfTwoIsTheEnumeration(s: seq<seq<real>>)
    requires IsEnumeration(s, 10.0, 2.0, 3)
    ensures s == TenInStepsOfTwo()
    ensures |s| == 15 && s[0] == [10.0, 0.0, 0.0] && s[14] == [2.0, 0.0, 8.0]
    ensures forall i :: 0 <= i < |s| ==> s[i][0] > 0.0
  {
    var e := TenInStepsOfTwo();
    TenInStepsOfTwoFirstSteps();
    TenInStepsOfTwoMiddleSteps();
    TenInStepsOfTwoLastSteps();
    assert IsEnumeration(e, 10.0, 2.0, 3);
    EnumerationIsUnique(s, e, 10.0, 2.0, 3);
  }
}
