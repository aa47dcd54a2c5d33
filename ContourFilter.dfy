/** The contour stage of `ImageProcessor`: `FilterContours`, which walks the
    sibling chain of traced contours and keeps those that pass a size/shape test
    and an edge-corroboration test, and `ConvertContours`, which flattens the
    chain without filtering. The chain linked through `HNext` is a sequence here. */
module ContourFilter {
  import opened CSharpInt
  import opened Geometry
  import opened Sequences

  /** An 8-bit grey level of the dilated edge map. */
  newtype Byte = b: int | 0 <= b < 256

  /** A traced contour: its boundary points in order and the area it encloses
      (a double in the source). `Total()` is the point count. */
  datatype Contour = Contour(points: seq<Point>, area: real)
  {
    function Total(): nat {
      |points|
    }
  }

  /** The `ImageProcessor` fields the filter reads. */
  datatype Settings = Settings(
    filterContoursBySize: bool,
    noiseFilter: bool,
    minContourLength: int,
    minContourArea: int,
    minFormFactor: real)

  /** The field initialisers of `ImageProcessor`. */
  const DefaultSettings := Settings(true, false, 15, 10, 0.5)

  /** The largest contour area the filter accepts: half the frame when big
      contours are enabled, a fifth otherwise, computed in C# `int` arithmetic
      (the product wraps around, the division truncates). */
  function MaxArea(frameWidth: int, frameHeight: int, enableBigContour: bool): (r: int)
    requires IsInt32(frameWidth) && IsInt32(frameHeight)
    ensures IsInt32(r)
    ensures 0 <= frameWidth * frameHeight <= MaxValue ==>
      r == frameWidth * frameHeight / (if enableBigContour then 2 else 5)
  {
    Quot(Wrap(frameWidth * frameHeight), if enableBigContour then 2 else 5)
  }

  /** `area / total <= minFormFactor` evaluated in doubles. With no points the
      quotient is +Infinity for a positive area, NaN for a zero area and
      -Infinity for a negative one, so only a negative area makes it true. */
  predicate FormFactorAtMost(area: real, total: nat, minFormFactor: real) {
    if total == 0 then area < 0.0 else area / total as real <= minFormFactor
  }

  /** The disjunction that sends a contour to `next` when size filtering is on. */
  predicate FailsSizeTest(s: Settings, maxArea: int, c: Contour) {
    c.Total() < s.minContourLength ||
    c.area < s.minContourArea as real ||
    c.area > maxArea as real ||
    FormFactorAtMost(c.area, c.Total(), s.minFormFactor)
  }

  /** What a contour that survives size filtering satisfies, stated positively. */
  ghost predicate PassesSizeTest(s: Settings, maxArea: int, c: Contour) {
    c.Total() >= s.minContourLength &&
    s.minContourArea as real <= c.area <= maxArea as real &&
    (c.Total() > 0 ==> c.area / c.Total() as real > s.minFormFactor) &&
    (c.Total() == 0 ==> c.area >= 0.0)
  }

  /** The index of the second sampled point, `(Total / 2) % Total`: always a
      valid index, and the middle of the contour. */
  function SecondSampleIndex(total: nat): (k: nat)
    requires total > 0
    ensures k < total
    ensures k == total / 2
  {
    (total / 2) % total
  }

  /** True when the edge map has a pixel at p (rows are y, columns are x). */
  predicate OnMap(edges: array2<Byte>, p: Point) {
    0 <= p.y < edges.Length0 && 0 <= p.x < edges.Length1
  }

  /** What the loop body does with one contour. `Raise` is an exception escaping
      `FilterContours`: indexing an empty contour, `% 0`, or reading the edge map
      outside the image. */
  datatype Verdict = Keep | Drop | Raise

  /** The loop body of `FilterContours` for one contour. The second edge sample
      is read only when the first one is zero (`&&` short-circuits). */
  function Decide(s: Settings, maxArea: int, edges: array2<Byte>, c: Contour): (v: Verdict)
    reads edges
    ensures !s.filterContoursBySize && !s.noiseFilter ==> v == Keep
    ensures !s.noiseFilter ==> (v == Keep <==> !(s.filterContoursBySize && FailsSizeTest(s, maxArea, c)))
    ensures v != Drop && s.filterContoursBySize ==> !FailsSizeTest(s, maxArea, c)
    ensures v == Keep && s.noiseFilter ==> c.Total() > 0
    ensures v == Raise ==>
              s.noiseFilter &&
              (c.Total() == 0 || !OnMap(edges, c.points[0]) || !OnMap(edges, c.points[SecondSampleIndex(c.Total())]))
  {
    if s.filterContoursBySize && FailsSizeTest(s, maxArea, c) then Drop
    else if !s.noiseFilter then Keep
    else if c.Total() == 0 then Raise
    else
      var p1 := c.points[0];
      var p2 := c.points[SecondSampleIndex(c.Total())];
      if !OnMap(edges, p1) then Raise
      else if edges[p1.y, p1.x] != 0 then Keep
      else if !OnMap(edges, p2) then Raise
      else if edges[p2.y, p2.x] == 0 then Drop
      else Keep
  }

  /** The outcome of `FilterContours`: the kept contours, or the position in
      the chain of the contour whose noise test raised an exception. */
  datatype Outcome = Filtered(kept: seq<Contour>) | Raised(at: nat)

  /** The outcome of filtering a chain, one contour at a time from its head. */
  function Filter(s: Settings, maxArea: int, edges: array2<Byte>, chain: seq<Contour>): Outcome
    reads edges
    decreases |chain|
  {
    if |chain| == 0 then Filtered([])
    else
      var prefix := Filter(s, maxArea, edges, chain[..|chain| - 1]);
      var c := chain[|chain| - 1];
      match prefix
      case Raised(_) => prefix
      case Filtered(kept) =>
        match Decide(s, maxArea, edges, c)
        case Keep => Filtered(kept + [c])
        case Drop => prefix
        case Raise => Raised(|chain| - 1)
  }

  /** `FilterContours`: walks the chain, skipping (`goto next`) each contour that
      fails the size test or has no edge-map support at its two sample points. */
  method FilterContours(s: Settings, chain: seq<Contour>, edges: array2<Byte>,
                        frameWidth: int, frameHeight: int, enableBigContour: bool)
    returns (o: Outcome)
    requires IsInt32(frameWidth) && IsInt32(frameHeight)
    ensures o == Filter(s, MaxArea(frameWidth, frameHeight, enableBigContour), edges, chain)
  {
    var maxArea := MaxArea(frameWidth, frameHeight, enableBigContour);
    var result: seq<Contour> := [];
    var i := 0;
    while i < |chain|
      invariant 0 <= i <= |chain|
      invariant Filter(s, maxArea, edges, chain[..i]) == Filtered(result)
    {
      var c := chain[i];
      FilterOneMore(s, maxArea, edges, chain, i, result);
      if s.filterContoursBySize && FailsSizeTest(s, maxArea, c) {
        assert Decide(s, maxArea, edges, c) == Drop;
        i := i + 1;
        continue;
      }
      if s.noiseFilter {
        if c.Total() == 0 {
          assert Decide(s, maxArea, edges, c) == Raise;
          RaisedIsFinal(s, maxArea, edges, chain, i + 1);
          return Raised(i);
        }
        var p1 := c.points[0];
        var p2 := c.points[(c.Total() / 2) % c.Total()];
        if !OnMap(edges, p1) {
          assert Decide(s, maxArea, edges, c) == Raise;
          RaisedIsFinal(s, maxArea, edges, chain, i + 1);
          return Raised(i);
        }
        if edges[p1.y, p1.x] == 0 {
          if !OnMap(edges, p2) {
            assert Decide(s, maxArea, edges, c) == Raise;
            RaisedIsFinal(s, maxArea, edges, chain, i + 1);
            return Raised(i);
          }
          if edges[p2.y, p2.x] == 0 {
            assert Decide(s, maxArea, edges, c) == Drop;
            i := i + 1;
            continue;
          }
        }
      }
      assert Decide(s, maxArea, edges, c) == Keep;
      result := result + [c];
      i := i + 1;
    }
    assert chain[..i] == chain;
    o := Filtered(result);
  }

  /** One more contour: the outcome for the first i + 1 contours follows from
      the outcome for the first i and the verdict on contour i. */
  lemma FilterOneMore(s: Settings, maxArea: int, edges: array2<Byte>, chain: seq<Contour>, i: nat, kept: seq<Contour>)
    requires i < |chain|
    requires Filter(s, maxArea, edges, chain[..i]) == Filtered(kept)
    ensures Filter(s, maxArea, edges, chain[..i + 1]) ==
      match Decide(s, maxArea, edges, chain[i])
      case Keep => Filtered(kept + [chain[i]])
      case Drop => Filtered(kept)
      case Raise => Raised(i)
  {
    assert chain[..i + 1][..i] == chain[..i];
  }

  /** An exception ends the walk: once a prefix of the chain raises, the whole chain does. */
  lemma {:induction false} RaisedIsFinal(s: Settings, maxArea: int, edges: array2<Byte>, chain: seq<Contour>, n: nat)
    requires n <= |chain|
    requires Filter(s, maxArea, edges, chain[..n]).Raised?
    ensures Filter(s, maxArea, edges, chain) == Filter(s, maxArea, edges, chain[..n])
    decreases |chain| - n
  {
    if n < |chain| {
      assert chain[..n + 1][..n] == chain[..n];
      RaisedIsFinal(s, maxArea, edges, chain, n + 1);
    } else {
      assert chain[..n] == chain;
    }
  }

  /** `ConvertContours`: the chain as a list, every contour in order. */
  method ConvertContours(chain: seq<Contour>) returns (result: seq<Contour>)
    ensures result == chain
  {
    result := [];
    var i := 0;
    while i < |chain|
      invariant 0 <= i <= |chain|
      invariant result == chain[..i]
    {
      result := result + [chain[i]];
      i := i + 1;
    }
  }

  // ---------------------------------------------------------------------------
  // Properties of the filter

  /** The kept contours are the chain with some contours removed, in chain order. */
  lemma {:induction false} FilterKeepsChainOrder(s: Settings, maxArea: int, edges: array2<Byte>, chain: seq<Contour>)
    requires Filter(s, maxArea, edges, chain).Filtered?
    ensures IsSubsequence(Filter(s, maxArea, edges, chain).kept, chain)
    decreases |chain|
  {
    if |chain| > 0 {
      var init := chain[..|chain| - 1];
      var c := chain[|chain| - 1];
      assert init + [c] == chain;
      FilterKeepsChainOrder(s, maxArea, edges, init);
      var kept := Filter(s, maxArea, edges, init).kept;
      if Decide(s, maxArea, edges, c) == Keep {
        SubsequenceOfBothExtended(kept, init, c);
      } else {
        SubsequenceOfLonger(kept, init, c);
      }
    }
  }

  /** A contour is kept exactly when it is in the chain and its own verdict is
      `Keep`; the filter raises exactly when some contour's verdict is `Raise`,
      and then at the first such contour. */
  lemma {:induction false} FilterVerdicts(s: Settings, maxArea: int, edges: array2<Byte>, chain: seq<Contour>)
    ensures Filter(s, maxArea, edges, chain).Filtered? <==>
      forall k :: 0 <= k < |chain| ==> Decide(s, maxArea, edges, chain[k]) != Raise
    ensures Filter(s, maxArea, edges, chain).Filtered? ==>
      forall c :: c in Filter(s, maxArea, edges, chain).kept <==>
        c in chain && Decide(s, maxArea, edges, c) == Keep
    ensures Filter(s, maxArea, edges, chain).Raised? ==>
      var at := Filter(s, maxArea, edges, chain).at;
      at < |chain| && Decide(s, maxArea, edges, chain[at]) == Raise &&
      forall k :: 0 <= k < at ==> Decide(s, maxArea, edges, chain[k]) != Raise
    decreases |chain|
  {
    if |chain| > 0 {
      var init := chain[..|chain| - 1];
      var c := chain[|chain| - 1];
      assert init + [c] == chain;
      FilterVerdicts(s, maxArea, edges, init);
    }
  }

  /** With size filtering on, every kept contour has at least `minContourLength`
      points, an area between `minContourArea` and `maxArea`, and a form factor
      above `minFormFactor`. */
  lemma {:induction false} KeptContoursPassSizeTest(s: Settings, maxArea: int, edges: array2<Byte>, chain: seq<Contour>)
    requires s.filterContoursBySize
    requires Filter(s, maxArea, edges, chain).Filtered?
    ensures forall c :: c in Filter(s, maxArea, edges, chain).kept ==> PassesSizeTest(s, maxArea, c)
  {
    FilterVerdicts(s, maxArea, edges, chain);
    forall c | c in Filter(s, maxArea, edges, chain).kept
      ensures PassesSizeTest(s, maxArea, c)
    {
      assert !FailsSizeTest(s, maxArea, c);
      if c.Total() > 0 {
        assert !(c.area / c.Total() as real <= s.minFormFactor);
      }
    }
  }

  /** With the noise filter on, every kept contour has a non-zero edge-map pixel
      at its first point or at its middle point, and both sample indices are
      within the contour. */
  lemma {:induction false} KeptContoursHaveEdgeSupport(s: Settings, maxArea: int, edges: array2<Byte>, chain: seq<Contour>)
    requires s.noiseFilter
    requires Filter(s, maxArea, edges, chain).Filtered?
    ensures forall c :: c in Filter(s, maxArea, edges, chain).kept ==>
      c.Total() > 0 &&
      var p1, p2 := c.points[0], c.points[c.Total() / 2];
      (OnMap(edges, p1) && edges[p1.y, p1.x] != 0) ||
      (OnMap(edges, p1) && OnMap(edges, p2) && edges[p2.y, p2.x] != 0)
  {
    FilterVerdicts(s, maxArea, edges, chain);
  }

  /** Once a contour has passed the size test (or size filtering is off), the
      noise test drops it exactly when the edge map is zero at both samples. */
  lemma NoiseTestDropsUnsupported(s: Settings, maxArea: int, edges: array2<Byte>, c: Contour)
    requires s.noiseFilter
    requires !(s.filterContoursBySize && FailsSizeTest(s, maxArea, c))
    requires c.Total() > 0
    requires OnMap(edges, c.points[0]) && OnMap(edges, c.points[c.Total() / 2])
    ensures Decide(s, maxArea, edges, c) != Raise
    ensures Decide(s, maxArea, edges, c) == Drop <==>
      var p1, p2 := c.points[0], c.points[c.Total() / 2];
      edges[p1.y, p1.x] == 0 && edges[p2.y, p2.x] == 0
  {
  }

  /** With both filters off nothing is dropped: `FilterContours` then returns
      the same list as `ConvertContours`. */
  lemma {:induction false} UnfilteredKeepsWholeChain(s: Settings, maxArea: int, edges: array2<Byte>, chain: seq<Contour>)
    requires !s.filterContoursBySize && !s.noiseFilter
    ensures Filter(s, maxArea, edges, chain) == Filtered(chain)
    decreases |chain|
  {
    if |chain| > 0 {
      var init := chain[..|chain| - 1];
      assert init + [chain[|chain| - 1]] == chain;
      UnfilteredKeepsWholeChain(s, maxArea, edges, init);
    }
  }

  /** `strict` filters at least as hard as `loose`: higher minimum length, area
      and form factor, lower maximum area, same switches. */
  ghost predicate AtLeastAsStrict(strict: Settings, strictMax: int, loose: Settings, looseMax: int) {
    strict.filterContoursBySize == loose.filterContoursBySize &&
    strict.noiseFilter == loose.noiseFilter &&
    strict.minContourLength >= loose.minContourLength &&
    strict.minContourArea >= loose.minContourArea &&
    strict.minFormFactor >= loose.minFormFactor &&
    strictMax <= looseMax
  }

  /** Stricter thresholds can only turn a verdict into `Drop`. */
  lemma StricterVerdict(strict: Settings, strictMax: int, loose: Settings, looseMax: int,
                        edges: array2<Byte>, c: Contour)
    requires AtLeastAsStrict(strict, strictMax, loose, looseMax)
    ensures Decide(strict, strictMax, edges, c) == Drop ||
            Decide(strict, strictMax, edges, c) == Decide(loose, looseMax, edges, c)
  {
    if FailsSizeTest(loose, looseMax, c) && c.Total() > 0 &&
       c.area / c.Total() as real <= loose.minFormFactor {
      assert c.area / c.Total() as real <= strict.minFormFactor;
    }
  }

  /** The size filter is monotone: if the looser settings filter the chain
      without an exception, so do the stricter ones, and they keep a
      subsequence of what the looser ones keep. */
  lemma {:induction false} FilterMonotone(strict: Settings, strictMax: int, loose: Settings, looseMax: int,
                                          edges: array2<Byte>, chain: seq<Contour>)
    requires AtLeastAsStrict(strict, strictMax, loose, looseMax)
    requires Filter(loose, looseMax, edges, chain).Filtered?
    ensures Filter(strict, strictMax, edges, chain).Filtered?
    ensures IsSubsequence(Filter(strict, strictMax, edges, chain).kept,
                          Filter(loose, looseMax, edges, chain).kept)
    decreases |chain|
  {
    if |chain| > 0 {
      var init := chain[..|chain| - 1];
      var c := chain[|chain| - 1];
      FilterMonotone(strict, strictMax, loose, looseMax, edges, init);
      StricterVerdict(strict, strictMax, loose, looseMax, edges, c);
      var keptStrict := Filter(strict, strictMax, edges, init).kept;
      var keptLoose := Filter(loose, looseMax, edges, init).kept;
      if Decide(loose, looseMax, edges, c) == Keep {
        if Decide(strict, strictMax, edges, c) == Keep {
          SubsequenceOfBothExtended(keptStrict, keptLoose, c);
        } else {
          SubsequenceOfLonger(keptStrict, keptLoose, c);
        }
      }
    }
  }

  /** The 20x20 square of a 100x100 frame (80 points, area 400) survives the
      default thresholds and is rejected once `minContourArea` is 500. */
  lemma SquareScenario(edges: array2<Byte>, points: seq<Point>)
    requires |points| == 80
    ensures var square := Contour(points, 400.0);
      var maxArea := MaxArea(100, 100, false);
      Filter(DefaultSettings, maxArea, edges, [square]) == Filtered([square]) &&
      Filter(DefaultSettings.(minContourArea := 500), maxArea, edges, [square]) == Filtered([])
  {
    var square := Contour(points, 400.0);
    assert [square][..0] == [];
    assert MaxArea(100, 100, false) == 2000;
  }
}
