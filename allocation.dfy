/** The uses of the resource, their revenue, and the exhaustive search for the
    configuration of largest total revenue. Line numbers in the comments below refer to
    fractional-allocation-solver.py. */
module Allocation {
  import opened Wrappers
  import opened Simplex
  import opened Enumeration

  /** Lines 31-34: the price closure `linear(x) = m*x + b`, kept as its two coefficients. */
  datatype Linear = Linear(m: real, b: real)
  {
    function At(x: real): (y: real)
    {
      m * x + b
    }
  }

  /** Lines 41-45: a use has a name, a factor `h` that turns a quantity of the resource
      into units of the use's product, and a linear price for those units. */
  datatype Use = Use(name: string, h: real, price: Linear)

  /** Lines 31-45: the use built from the four numbers of its description. */
  function MakeUse(name: string, h: real, m: real, b: real): (u: Use)
    ensures u.name == name && u.h == h
    ensures u.price.At(0.0) == b
    ensures forall x, y :: u.price.At(x) - u.price.At(y) == m * (x - y)
  {
    Use(name, h, Linear(m, b))
  }

  /** Lines 46-47: `h * quantity` units sold at the price of `quantity * h` units. */
  function Revenue(u: Use, quantity: real): (r: real)
    ensures quantity == 0.0 || u.h == 0.0 ==> r == 0.0
  {
    u.h * quantity * u.price.At(quantity * u.h)
  }

  /** The revenue is a quadratic in the units produced, `m*x^2 + b*x` with `x = h*quantity`. */
  lemma RevenueIsQuadratic(u: Use, quantity: real)
    ensures var x := u.h * quantity; Revenue(u, quantity) == u.price.m * (x * x) + u.price.b * x
  {
    var x := u.h * quantity;
    assert quantity * u.h == x;
    assert Revenue(u, quantity) == x * (u.price.m * x + u.price.b);
  }

  /** Lines 80-83: the revenue of a configuration, accumulated from index 0 up; `uses` and
      `configuration` are parallel. */
  function TotalRevenue(uses: seq<Use>, configuration: seq<real>): (r: real)
    requires |uses| == |configuration|
  {
    if |configuration| == 0 then 0.0
    else
      var n := |configuration| - 1;
      TotalRevenue(uses[..n], configuration[..n]) + Revenue(uses[n], configuration[n])
  }

  /** Changing one use or its quantity changes the total by exactly the change in that
      use's revenue: the total is a sum over the parallel indices. */
  lemma {:induction false} TotalRevenueUpdate(uses: seq<Use>, configuration: seq<real>, k: int, u: Use, quantity: real)
    requires |uses| == |configuration| && 0 <= k < |uses|
    ensures TotalRevenue(uses[k := u], configuration[k := quantity])
         == TotalRevenue(uses, configuration) - Revenue(uses[k], configuration[k]) + Revenue(u, quantity)
  {
    var n := |configuration| - 1;
    var uses' := uses[k := u];
    var configuration' := configuration[k := quantity];
    if k < n {
      assert uses'[..n] == uses[..n][k := u];
      assert configuration'[..n] == configuration[..n][k := quantity];
      TotalRevenueUpdate(uses[..n], configuration[..n], k, u, quantity);
    } else {
      assert uses'[..n] == uses[..n];
      assert configuration'[..n] == configuration[..n];
    }
  }

  /** A configuration with nothing allocated earns nothing. */
  lemma {:induction false} NothingAllocatedEarnsNothing(uses: seq<Use>, configuration: seq<real>)
    requires |uses| == |configuration|
    requires forall k :: 0 <= k < |configuration| ==> configuration[k] == 0.0
    ensures TotalRevenue(uses, configuration) == 0.0
  {
    if |configuration| > 0 {
      var n := |configuration| - 1;
      NothingAllocatedEarnsNothing(uses[..n], configuration[..n]);
    }
  }

  /** The outcome of the search: the best configuration and its revenue (lines 77, 85-86). */
  datatype Best = Best(configuration: seq<real>, revenue: real)

  /** Lines 70-72: fewer than three uses are refused. */
  datatype SearchError = TooFewUses(count: nat)

  /** Every candidate has one quantity per use. */
  ghost predicate Fits(uses: seq<Use>, candidates: seq<seq<real>>)
  {
    forall k :: 0 <= k < |candidates| ==> |candidates[k]| == |uses|
  }

  /** Candidate `i` earns at least as much as every candidate and strictly more than every
      earlier one: the one the strict `<` on line 84 keeps. */
  ghost predicate IsFirstBest(uses: seq<Use>, candidates: seq<seq<real>>, i: int)
  {
    && Fits(uses, candidates)
    && 0 <= i < |candidates|
    && (forall k :: 0 <= k < |candidates| ==> TotalRevenue(uses, candidates[k]) <= TotalRevenue(uses, candidates[i]))
    && (forall k :: 0 <= k < i ==> TotalRevenue(uses, candidates[k]) < TotalRevenue(uses, candidates[i]))
  }

  /** Lines 80-83: the inner loop that adds up the revenue of one configuration. */
  method ConfigurationRevenue(uses: seq<Use>, configuration: array<real>) returns (revenue: real)
    requires |uses| == configuration.Length
    ensures revenue == TotalRevenue(uses, configuration[..])
  {
    revenue := 0.0;
    for useIdx := 0 to configuration.Length
      invariant revenue == TotalRevenue(uses[..useIdx], configuration[..useIdx])
    {
      assert uses[..useIdx + 1][..useIdx] == uses[..useIdx];
      assert configuration[..useIdx + 1][..useIdx] == configuration[..useIdx];
      revenue := revenue + Revenue(uses[useIdx], configuration[useIdx]);
    }
    assert uses[..configuration.Length] == uses && configuration[..configuration.Length] == configuration[..];
  }

  /** Line 84: appending a candidate keeps the first best when it earns no more, and makes
      the new candidate the first best when it earns strictly more. */
  lemma FirstBestExtends(uses: seq<Use>, candidates: seq<seq<real>>, i: int, next: seq<real>)
    requires |next| == |uses|
    requires |candidates| == 0 || IsFirstBest(uses, candidates, i)
    ensures |candidates| == 0 || TotalRevenue(uses, candidates[i]) < TotalRevenue(uses, next) ==>
      IsFirstBest(uses, candidates + [next], |candidates|)
    ensures |candidates| > 0 && TotalRevenue(uses, next) <= TotalRevenue(uses, candidates[i]) ==>
      IsFirstBest(uses, candidates + [next], i)
  {
    var longer := candidates + [next];
    assert forall k :: 0 <= k < |candidates| ==> longer[k] == candidates[k];
  }

  /** The configurations the search visits: everything the generator yields for the total
      in steps of one hundredth of it, one dimension per use. */
  ghost predicate IsSearchedRun(s: seq<seq<real>>, uses: seq<Use>, totalQuantity: real)
  {
    IsEnumeration(s, totalQuantity, totalQuantity / 100.0, |uses|)
  }

  /** Lines 70-86: refuse fewer than three uses; otherwise walk every configuration the
      generator yields, add up the revenue of each, and keep a copy of the first one of
      largest revenue. `yielded` is the sequence of configurations the generator produced. */
  method Search(uses: seq<Use>, totalQuantity: real) returns (result: Result<Best, SearchError>, ghost yielded: seq<seq<real>>)
    ensures result.Failure? <==> |uses| < 3
    ensures result.Failure? ==> result.error == TooFewUses(|uses|)
    ensures result.Success? ==>
      && IsSearchedRun(yielded, uses, totalQuantity)
      && exists i :: IsFirstBest(uses, yielded, i) && result.value == Best(yielded[i], TotalRevenue(uses, yielded[i]))
    ensures result.Success? ==> forall s :: IsSearchedRun(s, uses, totalQuantity) ==>
      exists i :: IsFirstBest(uses, s, i) && result.value == Best(s[i], TotalRevenue(uses, s[i]))
  {
    yielded := [];
    if |uses| < 3 {
      return Failure(TooFewUses(|uses|)), yielded;
    }
    var interval := totalQuantity / 100.0;
    assert Initial(totalQuantity, |uses|)[|uses| - 1] == 0.0;
    var enumerator := new Enumerator(totalQuantity, interval, |uses|);
    var maxConfig: Option<seq<real>> := None;
    var maxRevenue: Option<real> := None;
    ghost var bestIdx := 0;
    var more := true;
    while more
      invariant enumerator.Valid() && enumerator.configuration.Length == |uses|
      invariant enumerator.totalQuantity == totalQuantity && enumerator.interval == interval
      invariant more ==> IsRun(yielded + [enumerator.configuration[..]], totalQuantity, interval, |uses|)
      invariant !more ==> IsEnumeration(yielded, totalQuantity, interval, |uses|)
      invariant maxConfig.None? <==> |yielded| == 0
      invariant maxRevenue.None? <==> |yielded| == 0
      invariant |yielded| == 0 ==> Fits(uses, yielded)
      invariant |yielded| > 0 ==>
        && IsFirstBest(uses, yielded, bestIdx)
        && maxConfig.value == yielded[bestIdx]
        && maxRevenue.value == TotalRevenue(uses, yielded[bestIdx])
      decreases enumerator.Remaining(), more
    {
      var configuration := enumerator.configuration;
      var revenue := ConfigurationRevenue(uses, configuration);
      FirstBestExtends(uses, yielded, bestIdx, configuration[..]);
      if maxRevenue.None? || maxRevenue.value < revenue {
        maxConfig := Some(configuration[..]);
        maxRevenue := Some(revenue);
        bestIdx := |yielded|;
      }
      yielded := yielded + [configuration[..]];
      if enumerator.HasNext() {
        enumerator.Next();
        RunExtends(yielded, configuration[..], totalQuantity, interval, |uses|);
      } else {
        more := false;
      }
    }
    result := Success(Best(maxConfig.value, maxRevenue.value));
    forall s | IsSearchedRun(s, uses, totalQuantity)
      ensures exists i :: IsFirstBest(uses, s, i) && result.value == Best(s[i], TotalRevenue(uses, s[i]))
    {
      EnumerationIsUnique(s, yielded, totalQuantity, interval, |uses|);
      assert IsFirstBest(uses, s, bestIdx);
    }
  }

  /** With flat prices (slope 0) that pay the same `p` per unit of resource for every use,
      a configuration earns `p` times the quantity it allocates. */
  lemma {:induction false} FlatPriceRevenue(uses: seq<Use>, configuration: seq<real>, p: real)
    requires |uses| == |configuration|
    requires forall k :: 0 <= k < |uses| ==> uses[k].price.m == 0.0 && uses[k].h * uses[k].price.b == p
    ensures TotalRevenue(uses, configuration) == p * SumFrom(0, configuration)
  {
    if |configuration| > 0 {
      var n := |configuration| - 1;
      var u := uses[n];
      var q := configuration[n];
      FlatPriceRevenue(uses[..n], configuration[..n], p);
      assert configuration[..n] + [q] == configuration;
      SumFromSnoc(0, configuration[..n], q);
      RevenueIsQuadratic(u, q);
      assert u.price.b * (u.h * q) == (u.h * u.price.b) * q;
    }
  }

  /** With flat prices every yielded configuration earns `p` times the total. */
  lemma FlatPriceEarnsTheSame(uses: seq<Use>, s: seq<seq<real>>, totalQuantity: real, interval: real, p: real)
    requires interval > 0.0
    requires forall k :: 0 <= k < |uses| ==> uses[k].price.m == 0.0 && uses[k].h * uses[k].price.b == p
    requires IsRun(s, totalQuantity, interval, |uses|) && Fits(uses, s)
    ensures forall k :: 0 <= k < |s| ==> TotalRevenue(uses, s[k]) == p * totalQuantity
  {
    RunSumsToTotal(s, totalQuantity, interval, |uses|);
    forall k | 0 <= k < |s|
      ensures TotalRevenue(uses, s[k]) == p * totalQuantity
    {
      FlatPriceEarnsTotal(uses, s[k], totalQuantity, p);
    }
  }

  lemma FlatPriceEarnsTotal(uses: seq<Use>, configuration: seq<real>, totalQuantity: real, p: real)
    requires |uses| == |configuration| && SumFrom(0, configuration) == totalQuantity
    requires forall k :: 0 <= k < |uses| ==> uses[k].price.m == 0.0 && uses[k].h * uses[k].price.b == p
    ensures TotalRevenue(uses, configuration) == p * totalQuantity
  {
    FlatPriceRevenue(uses, configuration, p);
    ScaleEqual(p, SumFrom(0, configuration), totalQuantity);
  }

  /** With flat prices every configuration earns the same, so the strict `<` of line 84
      keeps the very first one, `[totalQuantity, 0, ..., 0]`. */
  lemma FlatPriceKeepsFirst(uses: seq<Use>, s: seq<seq<real>>, totalQuantity: real, interval: real, p: real, i: int)
    requires interval > 0.0
    requires forall k :: 0 <= k < |uses| ==> uses[k].price.m == 0.0 && uses[k].h * uses[k].price.b == p
    requires IsEnumeration(s, totalQuantity, interval, |uses|)
    requires IsFirstBest(uses, s, i)
    ensures i == 0 && s[i] == Initial(totalQuantity, |uses|)
  {
    FlatPriceEarnsTheSame(uses, s, totalQuantity, interval, p);
    assert TotalRevenue(uses, s[0]) == TotalRevenue(uses, s[i]);
  }

  /** Solver hint: substitutes equals under a product, which the solver misses on its own. */
  lemma ScaleEqual(p: real, x: real, y: real)
    requires x == y
    ensures p * x == p * y
  {
  }

  /** There is only one first best. */
  lemma FirstBestIsUnique(uses: seq<Use>, candidates: seq<seq<real>>, i: int, j: int)
    requires IsFirstBest(uses, candidates, i) && IsFirstBest(uses, candidates, j)
    ensures i == j
  {
    assert TotalRevenue(uses, candidates[j]) <= TotalRevenue(uses, candidates[i]);
    assert TotalRevenue(uses, candidates[i]) <= TotalRevenue(uses, candidates[j]);
  }
  /** `u` with the slope of its price replaced by `m`. */
  function WithSlope(u: Use, m: real): (v: Use)
    ensures v.name == u.name && v.h == u.h && v.price.m == m && v.price.b == u.price.b
  {
    Use(u.name, u.h, Linear(m, u.price.b))
  }

  /** Raising the slope of one use's price never lowers the quantity the first best gives
      that use, as long as no candidate gives that use a negative quantity. */
  lemma RaisedSlopeNeverAllocatesLess(uses: seq<Use>, candidates: seq<seq<real>>, k: int, raised: real, i: int, j: int)
    requires 0 <= k < |uses| && raised >= uses[k].price.m
    requires Fits(uses, candidates)
    requires forall l :: 0 <= l < |candidates| ==> 0.0 <= candidates[l][k]
    requires IsFirstBest(uses, candidates, i)
    requires IsFirstBest(uses[k := WithSlope(uses[k], raised)], candidates, j)
    ensures candidates[i][k] <= candidates[j][k]
  {
    var u := uses[k];
    var v := WithSlope(u, raised);
    var x := candidates[i][k];
    var y := candidates[j][k];
    if y < x {
      // Both revenues split into the old revenue plus the use's gain; with the larger gain
      // on the earlier maximum, the two earliest maxima would coincide and give x == y.
      RevenueWithOneUseChanged(uses, candidates[i], k, v);
      RevenueWithOneUseChanged(uses, candidates[j], k, v);
      SlopeGainGrows(u, raised, y, x);
      assert false;
    }
  }

  /** For the search itself: a higher slope `m` for one use's price never makes the kept
      configuration give that use less. With a total of zero or less the search sees only
      the first configuration, so both searches keep the same one. */
  lemma RaisedSlopeSearchAllocatesMore(uses: seq<Use>, totalQuantity: real, s: seq<seq<real>>, k: int, raised: real, i: int, j: int)
    requires IsSearchedRun(s, uses, totalQuantity)
    requires 0 <= k < |uses| && raised >= uses[k].price.m
    requires IsFirstBest(uses, s, i)
    requires IsFirstBest(uses[k := WithSlope(uses[k], raised)], s, j)
    ensures s[i][k] <= s[j][k]
  {
    if totalQuantity > 0.0 {
      RunSumsToTotal(s, totalQuantity, totalQuantity / 100.0, |uses|);
      RunEntriesNonNegative(s, totalQuantity, totalQuantity / 100.0, |uses|);
      RaisedSlopeNeverAllocatesLess(uses, s, k, raised, i, j);
    } else {
      OnlyFirstWithoutPositiveTotal(s, totalQuantity, |uses|);
    }
  }

  /** With a total of zero or less, the search's interval `total / 100` makes the `while`
      test fail on the first configuration, so it is the only one yielded. */
  lemma OnlyFirstWithoutPositiveTotal(s: seq<seq<real>>, totalQuantity: real, numDimensions: int)
    requires totalQuantity <= 0.0 && IsEnumeration(s, totalQuantity, totalQuantity / 100.0, numDimensions)
    ensures |s| == 1
  {
    if numDimensions <= 1 {
      SingleDimensionYieldsOnce(s, totalQuantity, totalQuantity / 100.0, numDimensions);
    } else if |s| > 1 {
      // Then the run would have stepped past the first configuration, whose last entry 0
      // leaves less than one interval.
      assert false;
    }
  }

  /** Replacing one use changes a configuration's revenue by that use's change in revenue. */
  lemma RevenueWithOneUseChanged(uses: seq<Use>, configuration: seq<real>, k: int, v: Use)
    requires |uses| == |configuration| && 0 <= k < |uses|
    ensures TotalRevenue(uses[k := v], configuration)
         == TotalRevenue(uses, configuration) + (Revenue(v, configuration[k]) - Revenue(uses[k], configuration[k]))
  {
    TotalRevenueUpdate(uses, configuration, k, v, configuration[k]);
    assert configuration[k := configuration[k]] == configuration;
  }

  /** Raising the slope gains more revenue on a larger non-negative quantity. */
  lemma SlopeGainGrows(u: Use, raised: real, y: real, x: real)
    requires raised >= u.price.m && 0.0 <= y <= x
    ensures Revenue(WithSlope(u, raised), y) - Revenue(u, y) <= Revenue(WithSlope(u, raised), x) - Revenue(u, x)
  {
    calc {
      Revenue(WithSlope(u, raised), y) - Revenue(u, y);
    == { SlopeGain(u, raised, y); }
      (raised - u.price.m) * ((u.h * y) * (u.h * y));
    <= { ScaledSquaresOrdered(raised - u.price.m, u.h, y, x); }
      (raised - u.price.m) * ((u.h * x) * (u.h * x));
    == { SlopeGain(u, raised, x); }
      Revenue(WithSlope(u, raised), x) - Revenue(u, x);
    }
  }

  /** The revenue a raised slope adds: the rise in slope times the square of the units sold. */
  lemma SlopeGain(u: Use, raised: real, q: real)
    ensures Revenue(WithSlope(u, raised), q) - Revenue(u, q) == (raised - u.price.m) * ((u.h * q) * (u.h * q))
  {
    SlopeDifference(u.h, u.price.m, raised, u.price.b, q);
  }

  lemma SlopeDifference(h: real, m: real, raised: real, b: real, q: real)
    ensures h * q * (raised * (q * h) + b) - h * q * (m * (q * h) + b) == (raised - m) * ((h * q) * (h * q))
  {
  }

  lemma ScaledSquaresOrdered(w: real, h: real, y: real, x: real)
    requires w >= 0.0 && 0.0 <= y <= x
    ensures w * ((h * y) * (h * y)) <= w * ((h * x) * (h * x))
  {
    SquaresOrdered(h, y, x);
    ScaleByNonNegative(w, (h * y) * (h * y), (h * x) * (h * x));
  }

  lemma SquaresOrdered(h: real, y: real, x: real)
    requires 0.0 <= y <= x
    ensures (h * y) * (h * y) <= (h * x) * (h * x)
  {
  }

  lemma ScaleByNonNegative(w: real, a: real, b: real)
    requires w >= 0.0 && a <= b
    ensures w * a <= w * b
  {
  }
}
