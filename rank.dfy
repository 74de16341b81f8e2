/** Why the enumerator stops: read as a number in base B (one more than any digit count an
    admissible configuration can hold), the digit tuple (c[N-1], ..., c[1]) is bounded by
    B^(N-1) and grows with every step. */
module SimplexRank {
  import opened Simplex

  function Pow(b: int, e: nat): (p: int)
  {
    if e == 0 then 1 else b * Pow(b, e - 1)
  }

  lemma {:induction false} PowPositive(b: int, e: nat)
    requires b >= 1
    ensures Pow(b, e) >= 1
  {
    if e > 0 {
      PowPositive(b, e - 1);
      MulMonotone(b, 1, Pow(b, e - 1));
    }
  }

  lemma MulMonotone(a: int, x: int, y: int)
    requires a >= 0 && x <= y
    ensures a * x <= a * y
  {
  }

  lemma DivMonotone(x: real, y: real, interval: real)
    requires interval > 0.0 && x <= y
    ensures x / interval <= y / interval
  {
    var a := x / interval;
    var b := y / interval;
    assert a * interval == x && b * interval == y;
    assert (b - a) * interval >= 0.0;
  }

  /** One more than the digit count of the whole total: no digit of an admissible
      configuration reaches it. */
  function Base(totalQuantity: real, interval: real): (b: int)
    requires interval > 0.0
    ensures b >= 1
  {
    if totalQuantity > 0.0 then
      DivMonotone(0.0, totalQuantity, interval);
      Digit(totalQuantity, interval) + 1
    else 1
  }

  /** The digits from d on, read as a base-`base` number with digit d least significant. */
  function Rank(c: seq<real>, d: nat, interval: real, base: int): (r: int)
    requires interval > 0.0
    decreases |c| - d
  {
    if d >= |c| then 0 else Digit(c[d], interval) + base * Rank(c, d + 1, interval, base)
  }

  ghost predicate DigitsBelow(c: seq<real>, d: nat, interval: real, base: int)
    requires interval > 0.0
  {
    forall j :: d <= j < |c| ==> 0 <= Digit(c[j], interval) < base
  }

  /** Every digit of an admissible configuration counts fewer intervals than the base. */
  lemma DigitsBelowBase(c: seq<real>, totalQuantity: real, interval: real)
    requires Admissible(c, totalQuantity, interval)
    ensures DigitsBelow(c, 1, interval, Base(totalQuantity, interval))
  {
    var base := Base(totalQuantity, interval);
    forall j | 1 <= j < |c|
      ensures 0 <= Digit(c[j], interval) < base
    {
      DivMonotone(0.0, c[j], interval);
      if c[0] > 0.0 {
        EntryAtMostSumFrom(1, c, j);
        DivMonotone(c[j], totalQuantity, interval);
      } else {
        assert c[j] == 0.0;
      }
    }
  }

  lemma {:induction false} RankBound(c: seq<real>, d: nat, interval: real, base: int)
    requires interval > 0.0 && d <= |c| && base >= 1
    requires DigitsBelow(c, d, interval, base)
    ensures 0 <= Rank(c, d, interval, base) < Pow(base, |c| - d)
    decreases |c| - d
  {
    if d < |c| {
      RankBound(c, d + 1, interval, base);
      DigitPlacement(Digit(c[d], interval), base, Rank(c, d + 1, interval, base), Pow(base, |c| - d - 1));
    }
  }

  /** A digit below the base placed under a number below `p` stays below `base * p`. */
  lemma DigitPlacement(digit: int, base: int, r: int, p: int)
    requires 0 <= digit < base && 0 <= r < p
    ensures 0 <= digit + base * r < base * p
  {
    MulMonotone(base, r, p - 1);
    assert base * (p - 1) == base * p - base;
  }

  /** Below a digit p, the lower digits add less than one unit of digit p's weight. */
  lemma {:induction false} RankBelowPivot(c: seq<real>, j: nat, p: nat, interval: real, base: int)
    requires interval > 0.0 && j <= p <= |c| && base >= 1
    requires DigitsBelow(c, j, interval, base)
    ensures Rank(c, j, interval, base) <= Pow(base, p - j) * Rank(c, p, interval, base) + Pow(base, p - j) - 1
    decreases p - j
  {
    if j < p {
      RankBelowPivot(c, j + 1, p, interval, base);
      LowerDigitsBelow(Digit(c[j], interval), base, Rank(c, j + 1, interval, base),
        Pow(base, p - j - 1), Rank(c, p, interval, base));
    }
  }

  lemma LowerDigitsBelow(digit: int, base: int, low: int, q: int, r: int)
    requires 0 <= digit < base && low <= q * r + q - 1
    ensures digit + base * low <= (base * q) * r + base * q - 1
  {
    MulMonotone(base, low, q * r + q - 1);
    assert base * (q * r + q - 1) == (base * q) * r + base * q - base;
  }

  /** Zero digits below p leave only digit p and above, shifted up. */
  lemma {:induction false} RankOfResetPrefix(c: seq<real>, j: nat, p: nat, interval: real, base: int)
    requires interval > 0.0 && j <= p <= |c|
    requires forall k :: j <= k < p ==> c[k] == 0.0
    ensures Rank(c, j, interval, base) == Pow(base, p - j) * Rank(c, p, interval, base)
    decreases p - j
  {
    if j < p {
      RankOfResetPrefix(c, j + 1, p, interval, base);
      DigitOfZero(interval);
      ZeroDigitPlacement(base, Pow(base, p - j - 1), Rank(c, p, interval, base));
    }
  }

  lemma ZeroDigitPlacement(base: int, q: int, r: int)
    ensures 0 + base * (q * r) == (base * q) * r
  {
  }

  lemma {:induction false} RankAgree(a: seq<real>, b: seq<real>, j: nat, interval: real, base: int)
    requires interval > 0.0 && |a| == |b|
    requires forall k :: j <= k < |a| ==> a[k] == b[k]
    ensures Rank(a, j, interval, base) == Rank(b, j, interval, base)
    decreases |a| - j
  {
    if j < |a| {
      RankAgree(a, b, j + 1, interval, base);
    }
  }

  /** Growing digit p by one interval adds one to the rank from p on. */
  lemma GrownRankAtPivot(c: seq<real>, next: seq<real>, p: nat, interval: real, base: int)
    requires interval > 0.0 && p < |c| == |next|
    requires c[p] == Digit(c[p], interval) as real * interval && next[p] == c[p] + interval
    requires forall j :: p < j < |c| ==> next[j] == c[j]
    ensures Rank(next, p, interval, base) == Rank(c, p, interval, base) + 1
  {
    RankAgree(c, next, p + 1, interval, base);
    DigitOfGrown(c[p], interval);
    assert Digit(next[p], interval) == Digit(c[p], interval) + 1;
    NextDigitPlacement(Digit(c[p], interval), Digit(next[p], interval), base,
      Rank(c, p + 1, interval, base), Rank(next, p + 1, interval, base));
  }

  lemma NextDigitPlacement(digit: int, grown: int, base: int, r: int, same: int)
    requires grown == digit + 1 && same == r
    ensures grown + base * same == digit + base * r + 1
  {
  }

  /** A step strictly raises the rank of the digit tuple. */
  lemma StepRaisesRank(c: seq<real>, totalQuantity: real, interval: real)
    requires Admissible(c, totalQuantity, interval) && Guard(c, totalQuantity, interval)
    ensures Rank(c, 1, interval, Base(totalQuantity, interval))
          < Rank(Step(c, totalQuantity, interval), 1, interval, Base(totalQuantity, interval))
  {
    var base := Base(totalQuantity, interval);
    var next := Step(c, totalQuantity, interval);
    StepGrowsOneDigit(c, totalQuantity, interval);
    var p :| GrowsAt(c, next, p, totalQuantity, interval);
    GrownRankAtPivot(c, next, p, interval, base);
    RankOfResetPrefix(next, 1, p, interval, base);
    DigitsBelowBase(c, totalQuantity, interval);
    RankBelowPivot(c, 1, p, interval, base);
    ShiftedSuccessorIsLarger(Rank(c, 1, interval, base), Pow(base, p - 1), Rank(c, p, interval, base));
  }

  lemma ShiftedSuccessorIsLarger(low: int, q: int, r: int)
    requires low <= q * r + q - 1
    ensures low < q * (r + 1)
  {
  }

  /** How far the digit tuple still is from the bound B^(N-1): a natural number that every
      step lowers. */
  ghost function Remaining(c: seq<real>, totalQuantity: real, interval: real): (r: nat)
    requires Admissible(c, totalQuantity, interval)
    ensures r >= 1
  {
    var base := Base(totalQuantity, interval);
    DigitsBelowBase(c, totalQuantity, interval);
    RankBound(c, 1, interval, base);
    Pow(base, |c| - 1) - Rank(c, 1, interval, base)
  }

  /** Every step lowers the remaining distance, so the enumerator stops. */
  lemma StepLowersRemaining(c: seq<real>, totalQuantity: real, interval: real)
    requires Admissible(c, totalQuantity, interval) && Guard(c, totalQuantity, interval)
    ensures Admissible(Step(c, totalQuantity, interval), totalQuantity, interval)
    ensures Remaining(Step(c, totalQuantity, interval), totalQuantity, interval) < Remaining(c, totalQuantity, interval)
  {
    StepKeepsAdmissible(c, totalQuantity, interval);
    StepRaisesRank(c, totalQuantity, interval);
  }
}
