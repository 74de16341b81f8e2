/** The odometer step of the discretized-simplex enumerator, as pure functions on
    snapshots of its configuration list, and what one step does to a snapshot.

    A configuration `c` has one entry per use. Entry 0 is the residual; entries
    1 .. |c|-1 are the digits of a mixed-radix counter, each stepped by `interval`.
    Quantities are exact reals. */
module Simplex {

  /** The sum of c[d], c[d+1], ..., c[|c|-1]; zero when d is at or past the end. */
  function SumFrom(d: nat, c: seq<real>): (r: real)
    decreases |c| - d
  {
    if d >= |c| then 0.0 else c[d] + SumFrom(d + 1, c)
  }

  /** Changing one entry changes every suffix sum that covers it by the difference,
      and leaves the suffix sums that start after it alone. */
  lemma {:induction false} SumFromUpdate(d: nat, c: seq<real>, j: nat, v: real)
    requires j < |c|
    ensures SumFrom(d, c[j := v]) == if j < d then SumFrom(d, c) else SumFrom(d, c) - c[j] + v
    decreases |c| - d
  {
    if d < |c| {
      SumFromUpdate(d + 1, c, j, v);
    }
  }

  /** Two configurations that agree from index d on have the same suffix sum from d. */
  lemma {:induction false} SumFromAgree(d: nat, a: seq<real>, b: seq<real>)
    requires |a| == |b|
    requires forall j :: d <= j < |a| ==> a[j] == b[j]
    ensures SumFrom(d, a) == SumFrom(d, b)
    decreases |a| - d
  {
    if d < |a| {
      SumFromAgree(d + 1, a, b);
    }
  }

  /** Appending an entry adds it to every suffix sum that reaches the end. */
  lemma {:induction false} SumFromSnoc(d: nat, c: seq<real>, x: real)
    requires d <= |c|
    ensures SumFrom(d, c + [x]) == SumFrom(d, c) + x
    decreases |c| - d
  {
    if d < |c| {
      assert (c + [x])[d] == c[d];
      SumFromSnoc(d + 1, c, x);
    } else {
      assert (c + [x])[d] == x;
    }
  }

  /** Zero entries on [d, p) do not contribute to the suffix sum from d. */
  lemma {:induction false} SumFromSkipsZeros(d: nat, p: nat, c: seq<real>)
    requires d <= p <= |c|
    requires forall j :: d <= j < p ==> c[j] == 0.0
    ensures SumFrom(d, c) == SumFrom(p, c)
    decreases p - d
  {
    if d < p {
      SumFromSkipsZeros(d + 1, p, c);
    }
  }

  /** With non-negative entries, every entry at or after d is at most the suffix sum from d. */
  lemma {:induction false} EntryAtMostSumFrom(d: nat, c: seq<real>, j: nat)
    requires d <= j < |c|
    requires forall k :: d <= k < |c| ==> 0.0 <= c[k]
    ensures 0.0 <= c[j] <= SumFrom(d, c)
    decreases |c| - d
  {
    SumFromNonNegative(d + 1, c);
    if d < j {
      EntryAtMostSumFrom(d + 1, c, j);
    }
  }

  lemma {:induction false} SumFromNonNegative(d: nat, c: seq<real>)
    requires forall k :: d <= k < |c| ==> 0.0 <= c[k]
    ensures 0.0 <= SumFrom(d, c)
    decreases |c| - d
  {
    if d < |c| {
      SumFromNonNegative(d + 1, c);
    }
  }

  /** The helper `sum(dimension, configuration)`: an accumulator loop over the entries
      from `dimension` to the end of the list. */
  method Sum(dimension: nat, configuration: array<real>) returns (total: real)
    ensures total == SumFrom(dimension, configuration[..])
  {
    total := 0.0;
    var d := dimension;
    while d < configuration.Length
      invariant dimension <= d
      invariant total + SumFrom(d, configuration[..]) == SumFrom(dimension, configuration[..])
      decreases configuration.Length - d
    {
      total := total + configuration[d];
      d := d + 1;
    }
  }

  /** Length of the list the enumerator builds for `numDimensions`: it starts from
      `[totalQuantity]` and appends one zero per dimension after the first. */
  function Width(numDimensions: int): (w: nat)
  {
    if numDimensions > 1 then numDimensions else 1
  }

  /** The first configuration: the whole quantity in entry 0, every digit zero. */
  function Initial(totalQuantity: real, numDimensions: int): (c: seq<real>)
    ensures |c| == Width(numDimensions) && c[0] == totalQuantity
    ensures forall d :: 1 <= d < |c| ==> c[d] == 0.0
  {
    [totalQuantity] + seq(Width(numDimensions) - 1, _ => 0.0)
  }

  /** The `while` test: the last entry is still more than one interval short of the total. */
  predicate Guard(c: seq<real>, totalQuantity: real, interval: real)
  {
    |c| >= 1 && totalQuantity - c[|c| - 1] > interval
  }

  /** The `for` scan from digit d on: a digit that has room (the total exceeds the sum of
      it and the digits above it by more than one interval) grows and the scan stops;
      otherwise the digit is reset to zero and the scan carries to the next one. */
  function Scan(c: seq<real>, d: nat, totalQuantity: real, interval: real): (s: seq<real>)
    ensures |s| == |c|
    decreases |c| - d
  {
    if d >= |c| then c
    else if totalQuantity - SumFrom(d, c) > interval then c[d := c[d] + interval]
    else Scan(c[d := 0.0], d + 1, totalQuantity, interval)
  }

  /** One pass of the `while` body: the scan from digit 1, then entry 0 recomputed as
      the residual. */
  function Step(c: seq<real>, totalQuantity: real, interval: real): (s: seq<real>)
    ensures |s| == |c|
  {
    var scanned := Scan(c, 1, totalQuantity, interval);
    if |scanned| == 0 then scanned else scanned[0 := totalQuantity - SumFrom(1, scanned)]
  }

  /** The digit count an entry stands for: how many whole intervals it holds. */
  function Digit(x: real, interval: real): (k: int)
    requires interval > 0.0
  {
    (x / interval).Floor
  }

  /** The shape every configuration of the enumerator has: entry 0 is the total minus the
      digits, every digit is a non-negative whole multiple of the interval, and the residual
      is positive unless this is still the first configuration. */
  ghost predicate Admissible(c: seq<real>, totalQuantity: real, interval: real)
  {
    && interval > 0.0
    && |c| >= 1
    && c[0] == totalQuantity - SumFrom(1, c)
    && (forall d :: 1 <= d < |c| ==> 0.0 <= c[d] && c[d] == Digit(c[d], interval) as real * interval)
    && (c[0] > 0.0 || c == Initial(totalQuantity, |c|))
  }

  /** `next` is `c` after the scan grew digit p: p is the lowest digit with room, every
      digit below it is reset, p holds one more interval, the digits above p are unchanged,
      and entry 0 is the new residual. */
  ghost predicate GrowsAt(c: seq<real>, next: seq<real>, p: int, totalQuantity: real, interval: real)
  {
    && 1 <= p < |c| == |next|
    && totalQuantity - SumFrom(p, c) > interval
    && (forall j :: 1 <= j < p ==> totalQuantity - SumFrom(j, c) <= interval)
    && next[p] == c[p] + interval
    && (forall j :: 1 <= j < p ==> next[j] == 0.0)
    && (forall j :: p < j < |c| ==> next[j] == c[j])
    && next[0] == totalQuantity - SumFrom(1, next)
  }

  /** `s` is `c` after the scan from digit d stopped at digit p: p is the lowest digit
      from d on with room, the digits d .. p-1 are reset, p holds one more interval and
      every other entry is unchanged. */
  ghost predicate ScannedTo(c: seq<real>, s: seq<real>, d: nat, p: int, totalQuantity: real, interval: real)
  {
    && d <= p < |c| == |s|
    && totalQuantity - SumFrom(p, c) > interval
    && (forall j :: d <= j < p ==> totalQuantity - SumFrom(j, c) <= interval)
    && (forall j :: 0 <= j < |c| ==> s[j] == if d <= j < p then 0.0 else if j == p then c[p] + interval else c[j])
  }

  /** The scan from digit d, when the last digit has room, resets the digits up to the
      lowest one with room and grows that one. */
  lemma {:induction false} ScanGrowsLowestRoom(c: seq<real>, d: nat, totalQuantity: real, interval: real)
    requires 1 <= d < |c|
    requires totalQuantity - c[|c| - 1] > interval
    ensures exists p :: ScannedTo(c, Scan(c, d, totalQuantity, interval), d, p, totalQuantity, interval)
    decreases |c| - d
  {
    var s := Scan(c, d, totalQuantity, interval);
    assert SumFrom(|c| - 1, c) == c[|c| - 1];
    if totalQuantity - SumFrom(d, c) > interval {
      assert ScannedTo(c, s, d, d, totalQuantity, interval);
    } else {
      assert d + 1 < |c|;
      var c' := c[d := 0.0];
      ScanGrowsLowestRoom(c', d + 1, totalQuantity, interval);
      var p :| ScannedTo(c', s, d + 1, p, totalQuantity, interval);
      forall j | d + 1 <= j <= p
        ensures SumFrom(j, c') == SumFrom(j, c)
      {
        SumFromUpdate(j, c, d, 0.0);
      }
      assert ScannedTo(c, s, d, p, totalQuantity, interval);
    }
  }

  /** Each step from a configuration whose last digit has room grows exactly one digit
      p >= 1 by one interval, the lowest one with room; it resets the digits below p,
      keeps the digits above p and recomputes the residual. The scan never falls through. */
  lemma StepGrowsOneDigit(c: seq<real>, totalQuantity: real, interval: real)
    requires |c| >= 2 && Guard(c, totalQuantity, interval)
    ensures exists p :: GrowsAt(c, Step(c, totalQuantity, interval), p, totalQuantity, interval)
  {
    ScanGrowsLowestRoom(c, 1, totalQuantity, interval);
    var s := Scan(c, 1, totalQuantity, interval);
    var p :| ScannedTo(c, s, 1, p, totalQuantity, interval);
    var next := Step(c, totalQuantity, interval);
    SumFromUpdate(1, s, 0, totalQuantity - SumFrom(1, s));
    assert GrowsAt(c, next, p, totalQuantity, interval);
  }

  /** What a grown configuration adds up to: its digits sum to the old digits from p on
      plus one interval. */
  lemma GrownDigitSum(c: seq<real>, next: seq<real>, p: int, totalQuantity: real, interval: real)
    requires GrowsAt(c, next, p, totalQuantity, interval)
    ensures SumFrom(1, next) == SumFrom(p, c) + interval
  {
    SumFromSkipsZeros(1, p, next);
    SumFromAgree(p + 1, c, next);
  }

  /** A step keeps a configuration admissible, and after a step the residual in entry 0
      is strictly positive: a digit grows only when the total exceeds it and the digits
      above it by more than one interval. */
  lemma StepKeepsAdmissible(c: seq<real>, totalQuantity: real, interval: real)
    requires Admissible(c, totalQuantity, interval) && Guard(c, totalQuantity, interval)
    ensures |c| >= 2
    ensures Admissible(Step(c, totalQuantity, interval), totalQuantity, interval)
    ensures Step(c, totalQuantity, interval)[0] > 0.0
  {
    if |c| == 1 {
      assert false;
    }
    StepGrowsOneDigit(c, totalQuantity, interval);
    var next := Step(c, totalQuantity, interval);
    var p :| GrowsAt(c, next, p, totalQuantity, interval);
    GrownDigitSum(c, next, p, totalQuantity, interval);
    assert next[0] > 0.0;
    GrownStaysOnGrid(c, next, p, totalQuantity, interval);
    assert |next| >= 1;
    assert next[0] == totalQuantity - SumFrom(1, next);
    assert next[0] > 0.0 || next == Initial(totalQuantity, |next|);
    assert Admissible(next, totalQuantity, interval);
  }

  /** The digits of a grown configuration are still non-negative whole multiples of the interval. */
  lemma GrownStaysOnGrid(c: seq<real>, next: seq<real>, p: int, totalQuantity: real, interval: real)
    requires interval > 0.0
    requires forall j :: 1 <= j < |c| ==> 0.0 <= c[j] && c[j] == Digit(c[j], interval) as real * interval
    requires GrowsAt(c, next, p, totalQuantity, interval)
    ensures forall j :: 1 <= j < |next| ==> 0.0 <= next[j] && next[j] == Digit(next[j], interval) as real * interval
  {
    forall j | 1 <= j < |next|
      ensures 0.0 <= next[j] && next[j] == Digit(next[j], interval) as real * interval
    {
      GrownEntryOnGrid(c[j], next[j], interval, j == p, j < p);
    }
  }

  /** One digit of a grown configuration: grown by one interval, reset, or kept. */
  lemma GrownEntryOnGrid(before: real, after: real, interval: real, grown: bool, reset: bool)
    requires interval > 0.0 && 0.0 <= before && before == Digit(before, interval) as real * interval
    requires grown ==> after == before + interval
    requires !grown && reset ==> after == 0.0
    requires !grown && !reset ==> after == before
    ensures 0.0 <= after && after == Digit(after, interval) as real * interval
  {
    if grown {
      DigitOfGrown(before, interval);
    } else if reset {
      DigitOfZero(interval);
    }
  }

  lemma DigitOfZero(interval: real)
    requires interval > 0.0
    ensures Digit(0.0, interval) == 0
  {
  }

  /** Adding one interval to a whole multiple of it adds one to its digit count and
      keeps it a whole multiple. */
  lemma DigitOfGrown(x: real, interval: real)
    requires interval > 0.0
    requires x == Digit(x, interval) as real * interval
    ensures Digit(x + interval, interval) == Digit(x, interval) + 1
    ensures x + interval == Digit(x + interval, interval) as real * interval
  {
    var k := Digit(x, interval);
    assert x + interval == (k + 1) as real * interval;
    DivOfMultiple((k + 1) as real, interval);
    assert (x + interval) / interval == (k + 1) as real;
  }

  lemma DivOfMultiple(k: real, interval: real)
    requires interval > 0.0
    ensures (k * interval) / interval == k
  {
  }

  /** Every whole multiple of a positive interval sits within one interval at or below x. */
  lemma FloorBounds(x: real, interval: real)
    requires interval > 0.0
    ensures Digit(x, interval) as real * interval <= x < Digit(x, interval) as real * interval + interval
  {
    DivTimes(x, interval);
    ScaledFloorBelow(x / interval, Digit(x, interval) as real, interval, x);
    ScaledFloorAbove(x / interval, Digit(x, interval) as real, interval, x);
  }

  lemma DivTimes(x: real, w: real)
    requires w > 0.0
    ensures (x / w) * w == x
  {
  }

  lemma ScaledFloorBelow(q: real, f: real, w: real, x: real)
    requires w > 0.0 && f <= q && q * w == x
    ensures f * w <= x
  {
  }

  lemma ScaledFloorAbove(q: real, f: real, w: real, x: real)
    requires w > 0.0 && q < f + 1.0 && q * w == x
    ensures x < f * w + w
  {
    ScaleByPositive(q, f + 1.0, w);
    Distribute(f, w);
  }

  lemma ScaleByPositive(a: real, b: real, w: real)
    requires w > 0.0
    ensures a <= b ==> a * w <= b * w
    ensures a < b ==> a * w < b * w
  {
  }

  lemma Distribute(f: real, w: real)
    ensures (f + 1.0) * w == f * w + w
  {
  }

  /** A positive whole multiple of a positive interval holds at least one interval. */
  lemma WholeMultipleIsPositive(k: int, interval: real, x: real)
    requires interval > 0.0 && x == k as real * interval && x > 0.0
    ensures k >= 1
  {
    if k <= 0 {
      ScaleByPositive(k as real, 0.0, interval);
    }
  }

  lemma ShiftMultiple(k: int, interval: real, x: real)
    requires x == k as real * interval
    ensures x - interval == (k - 1) as real * interval
  {
  }

  lemma NonNegativeMultiple(k: int, interval: real)
    requires interval > 0.0 && k >= 0
    ensures k as real * interval >= 0.0
  {
  }

  /** The whole multiple of the interval that leaves a remainder in (0, interval] below a
      positive x: the most whole intervals that fit strictly below x. */
  function FullIntervalsBelow(x: real, interval: real): (k: int)
    requires interval > 0.0 && x > 0.0
    ensures k >= 0
    ensures 0.0 < x - k as real * interval <= interval
  {
    var f := Digit(x, interval);
    FloorBounds(x, interval);
    if f as real * interval == x then
      WholeMultipleIsPositive(f, interval, x);
      ShiftMultiple(f, interval, x);
      f - 1
    else
      WholeMultipleIsPositive(f + 1, interval, f as real * interval + interval);
      ShiftMultiple(f + 1, interval, f as real * interval + interval);
      f
  }

  /** A whole multiple of the interval has that many intervals as its digit count. */
  lemma DigitOfMultiple(k: int, interval: real, x: real)
    requires interval > 0.0 && x == k as real * interval
    ensures Digit(x, interval) == k
  {
    DivOfMultiple(k as real, interval);
  }

  /** Every admissible configuration other than the first is the step of an admissible
      configuration of the same length that passes the `while` test: the scan grows its
      lowest non-zero digit, and below that digit the predecessor holds as many intervals
      as still leave a positive residual. */
  lemma StepHasPredecessor(c: seq<real>, totalQuantity: real, interval: real)
    requires Admissible(c, totalQuantity, interval) && c != Initial(totalQuantity, |c|)
    ensures exists b ::
      && |b| == |c|
      && Admissible(b, totalQuantity, interval)
      && Guard(b, totalQuantity, interval)
      && Step(b, totalQuantity, interval) == c
  {
    var p := LowestNonZeroDigit(c, totalQuantity, interval);
    var low := PredecessorSettingHolds(c, p, totalQuantity, interval);
    PredecessorSteps(c, p, low, totalQuantity, interval);
    assert |PredecessorOf(c, p, low, totalQuantity, interval)| == |c|;
  }

  /** Below the lowest non-zero digit, the predecessor holds the most whole intervals that
      fit strictly below the room left once that digit holds one interval less. */
  lemma PredecessorSettingHolds(c: seq<real>, p: nat, totalQuantity: real, interval: real) returns (low: real)
    requires Admissible(c, totalQuantity, interval) && 1 <= p < |c| && c[p] > 0.0
    requires forall j :: 1 <= j < p ==> c[j] == 0.0
    ensures PredecessorSetting(c, p, low, totalQuantity, interval)
  {
    LoweredMultiple(c[p], interval);
    SumFromSkipsZeros(1, p, c);
    var k := FullIntervalsBelow(totalQuantity - SumFrom(p, c) + interval, interval);
    WholeMultiple(k, interval);
    low := k as real * interval;
  }

  /** The lowest digit that holds something; it exists in every admissible configuration
      other than the first. */
  lemma LowestNonZeroDigit(c: seq<real>, totalQuantity: real, interval: real) returns (p: nat)
    requires Admissible(c, totalQuantity, interval) && c != Initial(totalQuantity, |c|)
    ensures 1 <= p < |c| && c[p] > 0.0
    ensures forall j :: 1 <= j < p ==> c[j] == 0.0
  {
    p := 1;
    while p < |c| && c[p] == 0.0
      invariant 1 <= p <= |c|
      invariant forall j :: 1 <= j < p ==> c[j] == 0.0
      decreases |c| - p
    {
      p := p + 1;
    }
    if p == |c| {
      SumFromSkipsZeros(1, |c|, c);
      assert false;
    }
  }

  /** The predecessor of c whose lowest non-zero digit is p: digit p holds one interval
      less, digit p-1 (when it is a digit) holds `low`, and entry 0 is the residual. */
  ghost function PredecessorOf(c: seq<real>, p: nat, low: real, totalQuantity: real, interval: real): (b: seq<real>)
    requires 1 <= p < |c|
    ensures |b| == |c|
  {
    var lowered := c[p := c[p] - interval];
    var filled := if p >= 2 then lowered[p - 1 := low] else lowered;
    filled[0 := totalQuantity - SumFrom(1, filled)]
  }

  /** What the predecessor construction needs: p is the lowest non-zero digit of c, the
      residual of c is positive, and `low` is the largest whole multiple of the interval
      that leaves a positive residual once digit p holds one interval less. */
  ghost predicate PredecessorSetting(c: seq<real>, p: nat, low: real, totalQuantity: real, interval: real)
  {
    && interval > 0.0 && 1 <= p < |c| && c[p] > 0.0
    && (forall j :: 1 <= j < p ==> c[j] == 0.0)
    && totalQuantity - SumFrom(p, c) > 0.0
    && 0.0 <= c[p] - interval && c[p] - interval == Digit(c[p] - interval, interval) as real * interval
    && (p >= 2 ==> 0.0 <= low && low == Digit(low, interval) as real * interval)
    && (p >= 2 ==> 0.0 < totalQuantity - SumFrom(p, c) + interval - low <= interval)
  }

  /** The entries of the predecessor: above p it agrees with c, p holds one interval less,
      p-1 (when it is a digit) holds `low`, the digits below p-1 are as in c, and entry 0
      is the residual. */
  lemma PredecessorEntries(c: seq<real>, p: nat, low: real, totalQuantity: real, interval: real)
    requires 1 <= p < |c|
    ensures var b := PredecessorOf(c, p, low, totalQuantity, interval);
      && b[0] == totalQuantity - SumFrom(1, b)
      && b[p] == c[p] - interval
      && (forall j :: p < j < |c| ==> b[j] == c[j])
      && (forall j :: 1 <= j < p - 1 ==> b[j] == c[j])
      && (p >= 2 ==> b[p - 1] == low)
  {
    var lowered := c[p := c[p] - interval];
    var filled := if p >= 2 then lowered[p - 1 := low] else lowered;
    SumFromUpdate(1, filled, 0, totalQuantity - SumFrom(1, filled));
  }

  /** The suffix sums of the predecessor: p has room, the digits 1 .. p-1 have none, and
      the residual is positive. */
  lemma PredecessorShape(c: seq<real>, p: nat, low: real, totalQuantity: real, interval: real)
    requires PredecessorSetting(c, p, low, totalQuantity, interval)
    ensures var b := PredecessorOf(c, p, low, totalQuantity, interval);
      && b[0] > 0.0
      && totalQuantity - SumFrom(p, b) > interval
      && (forall j :: 1 <= j < p ==> totalQuantity - SumFrom(j, b) <= interval)
  {
    var b := PredecessorOf(c, p, low, totalQuantity, interval);
    PredecessorEntries(c, p, low, totalQuantity, interval);
    SumFromUpdate(p, c, p, c[p] - interval);
    SumFromAgree(p, b, c[p := c[p] - interval]);
    if p >= 2 {
      SumFromSkipsZeros(1, p - 1, b);
      forall j | 1 <= j < p
        ensures totalQuantity - SumFrom(j, b) <= interval
      {
        SumFromSkipsZeros(j, p - 1, b);
      }
    }
  }

  /** Each digit of the predecessor is a non-negative whole multiple of the interval. */
  lemma PredecessorDigitOnGrid(c: seq<real>, p: nat, low: real, totalQuantity: real, interval: real, d: nat)
    requires PredecessorSetting(c, p, low, totalQuantity, interval) && 1 <= d < |c|
    requires d > p ==> 0.0 <= c[d] && c[d] == Digit(c[d], interval) as real * interval
    ensures var b := PredecessorOf(c, p, low, totalQuantity, interval);
      0.0 <= b[d] && b[d] == Digit(b[d], interval) as real * interval
  {
    var b := PredecessorOf(c, p, low, totalQuantity, interval);
    PredecessorEntries(c, p, low, totalQuantity, interval);
    if d > p {
      SameOnGrid(c[d], b[d], interval);
    } else if d == p {
      SameOnGrid(c[p] - interval, b[d], interval);
    } else if d == p - 1 {
      SameOnGrid(low, b[d], interval);
    } else {
      DigitOfZero(interval);
      SameOnGrid(0.0, b[d], interval);
    }
  }

  /** Solver hint: substitutes equals into the grid condition, which keeps the floor term
      of one entry out of the others' proofs. */
  lemma SameOnGrid(x: real, y: real, interval: real)
    requires interval > 0.0 && x == y
    requires 0.0 <= x && x == Digit(x, interval) as real * interval
    ensures 0.0 <= y && y == Digit(y, interval) as real * interval
  {
  }

  /** The predecessor is admissible. */
  lemma PredecessorIsAdmissible(c: seq<real>, p: nat, low: real, totalQuantity: real, interval: real)
    requires Admissible(c, totalQuantity, interval) && PredecessorSetting(c, p, low, totalQuantity, interval)
    ensures Admissible(PredecessorOf(c, p, low, totalQuantity, interval), totalQuantity, interval)
  {
    var b := PredecessorOf(c, p, low, totalQuantity, interval);
    forall d | 1 <= d < |b|
      ensures 0.0 <= b[d] && b[d] == Digit(b[d], interval) as real * interval
    {
      PredecessorDigitOnGrid(c, p, low, totalQuantity, interval, d);
    }
    PredecessorEntries(c, p, low, totalQuantity, interval);
    PredecessorShape(c, p, low, totalQuantity, interval);
    PositiveResidualAdmissible(b, totalQuantity, interval);
  }

  /** A configuration whose entry 0 is the positive residual and whose digits are on the
      grid is admissible. */
  lemma PositiveResidualAdmissible(c: seq<real>, totalQuantity: real, interval: real)
    requires interval > 0.0 && |c| >= 1 && c[0] == totalQuantity - SumFrom(1, c) && c[0] > 0.0
    requires forall d :: 1 <= d < |c| ==> 0.0 <= c[d] && c[d] == Digit(c[d], interval) as real * interval
    ensures Admissible(c, totalQuantity, interval)
  {
  }

  /** A positive whole multiple of the interval, less one interval, is still a non-negative
      whole multiple of it. */
  lemma LoweredMultiple(x: real, interval: real)
    requires interval > 0.0 && x > 0.0 && x == Digit(x, interval) as real * interval
    ensures 0.0 <= x - interval && x - interval == Digit(x - interval, interval) as real * interval
  {
    var digit := Digit(x, interval);
    WholeMultipleIsPositive(digit, interval, x);
    ShiftMultiple(digit, interval, x);
    DigitOfMultiple(digit - 1, interval, x - interval);
    NonNegativeMultiple(digit - 1, interval);
  }

  /** k intervals, for k >= 0, are a non-negative whole multiple of the interval. */
  lemma WholeMultiple(k: int, interval: real)
    requires interval > 0.0 && k >= 0
    ensures 0.0 <= k as real * interval && k as real * interval == Digit(k as real * interval, interval) as real * interval
  {
    DigitOfMultiple(k, interval, k as real * interval);
    NonNegativeMultiple(k, interval);
  }

  /** The predecessor passes the `while` test: its last digit still has room. */
  lemma PredecessorPassesGuard(c: seq<real>, p: nat, low: real, totalQuantity: real, interval: real)
    requires PredecessorSetting(c, p, low, totalQuantity, interval)
    requires forall k :: p < k < |c| ==> 0.0 <= c[k]
    ensures Guard(PredecessorOf(c, p, low, totalQuantity, interval), totalQuantity, interval)
  {
    PredecessorEntries(c, p, low, totalQuantity, interval);
    var b := PredecessorOf(c, p, low, totalQuantity, interval);
    if p < |c| - 1 {
      EntryAtMostSumFrom(p + 1, c, |c| - 1);
      assert b[|c| - 1] == c[|c| - 1];
    } else {
      assert SumFrom(p, c) == c[p];
    }
  }

  /** The predecessor is admissible, passes the `while` test, and steps to c: the scan
      grows p, the lowest digit of the predecessor with room, and resets the digits below it. */
  lemma PredecessorSteps(c: seq<real>, p: nat, low: real, totalQuantity: real, interval: real)
    requires Admissible(c, totalQuantity, interval) && PredecessorSetting(c, p, low, totalQuantity, interval)
    ensures Admissible(PredecessorOf(c, p, low, totalQuantity, interval), totalQuantity, interval)
    ensures Guard(PredecessorOf(c, p, low, totalQuantity, interval), totalQuantity, interval)
    ensures Step(PredecessorOf(c, p, low, totalQuantity, interval), totalQuantity, interval) == c
  {
    var b := PredecessorOf(c, p, low, totalQuantity, interval);
    PredecessorIsAdmissible(c, p, low, totalQuantity, interval);
    PredecessorPassesGuard(c, p, low, totalQuantity, interval);
    PredecessorEntries(c, p, low, totalQuantity, interval);
    PredecessorShape(c, p, low, totalQuantity, interval);
    var next := Step(b, totalQuantity, interval);
    StepGrowsOneDigit(b, totalQuantity, interval);
    var q :| GrowsAt(b, next, q, totalQuantity, interval);
    assert q == p;
    SumFromAgree(1, next, c);
    assert next == c;
  }

  /** The digits, read from the highest down, in strictly increasing lexicographic order:
      `a` comes before `b` when they agree above some digit p and b is larger at p. */
  ghost predicate ColexLess(a: seq<real>, b: seq<real>)
  {
    |a| == |b| && exists p :: 1 <= p < |a| && a[p] < b[p] && (forall j :: p < j < |a| ==> a[j] == b[j])
  }

  /** Every step moves the digit tuple (c[N-1], ..., c[1]) strictly forward in
      lexicographic order. */
  lemma StepIsColexGreater(c: seq<real>, totalQuantity: real, interval: real)
    requires interval > 0.0 && |c| >= 2 && Guard(c, totalQuantity, interval)
    ensures ColexLess(c, Step(c, totalQuantity, interval))
  {
    StepGrowsOneDigit(c, totalQuantity, interval);
  }

  /** Whatever the digits, a step leaves a configuration whose entries add up to the total. */
  lemma StepSumsToTotal(c: seq<real>, totalQuantity: real, interval: real)
    requires |c| >= 1
    ensures SumFrom(0, Step(c, totalQuantity, interval)) == totalQuantity
  {
    var s := Scan(c, 1, totalQuantity, interval);
    SumFromUpdate(1, s, 0, totalQuantity - SumFrom(1, s));
  }

  /** The first configuration is admissible and adds up to the total. */
  lemma InitialIsAdmissible(totalQuantity: real, interval: real, numDimensions: int)
    requires interval > 0.0
    ensures Admissible(Initial(totalQuantity, numDimensions), totalQuantity, interval)
    ensures SumFrom(0, Initial(totalQuantity, numDimensions)) == totalQuantity
  {
    var c := Initial(totalQuantity, numDimensions);
    SumFromSkipsZeros(1, |c|, c);
    DigitOfZero(interval);
  }
}
