/** The overlap deduplicator of `ImageProcessor`: `GetTemplatesToDel` sorts the
    found templates by bounding-rectangle area, largest first; each detection
    not already marked then marks every later detection nested in its inflated
    rectangle (or, for a nearly equal one, itself unless its rate is strictly
    higher); `FilterByIntersection` and `FilterByIntersectionWithNull` then
    rebuild the list without the marked detections, or with null in their place. */
module Deduplication {
  import opened Geometry
  import opened Sequences

  datatype Option<T> = None | Some(value: T)

  /** A found template, reduced to what the deduplicator reads: the bounding
      rectangle of its sample's contour and its match rate. */
  datatype Detection = Detection(rect: Rectangle, rate: real)

  /** The margin by which the larger rectangle is inflated on every side. */
  const Margin: int := 4

  ghost predicate SortedByAreaDescending(s: seq<Detection>) {
    forall p, q :: 0 <= p < q < |s| ==> s[p].rect.Area() >= s[q].rect.Area()
  }

  /** `a / bigArea > 0.9d` in doubles. A zero `bigArea` gives +Infinity for a
      positive `a`, NaN for a zero one and -Infinity for a negative one. */
  predicate NearSameSize(a: int, bigArea: int) {
    if bigArea == 0 then a > 0 else a as real / bigArea as real > 0.9
  }

  /** For areas that are not negative, the ratio test is the integer test
      `10 * a > 9 * bigArea`. */
  lemma NearSameSizeAsIntegers(a: int, bigArea: int)
    requires a >= 0 && bigArea >= 0
    ensures NearSameSize(a, bigArea) <==> 10 * a > 9 * bigArea
  {
    if bigArea > 0 {
      RatioAboveNineTenths(a as real, bigArea as real);
      assert (10 * a) as real == 10.0 * a as real;
      assert (9 * bigArea) as real == 9.0 * bigArea as real;
    }
  }

  lemma RatioAboveNineTenths(x: real, y: real)
    requires y > 0.0
    ensures x / y > 0.9 <==> 10.0 * x > 9.0 * y
  {
    var ratio := x / y;
    assert ratio * y == x;
    assert ratio > 0.9 <==> ratio * y > 0.9 * y;
  }

  /** The inflated rectangle of detection i contains the rectangle of detection j. */
  predicate Contained(s: seq<Detection>, i: nat, j: nat)
    requires i < |s| && j < |s|
  {
    s[i].rect.Inflate(Margin, Margin).Contains(s[j].rect)
  }

  /** Detection j is at least nine tenths of the size of detection i. */
  predicate Near(s: seq<Detection>, i: nat, j: nat)
    requires i < |s| && j < |s|
  {
    NearSameSize(s[j].rect.Area(), s[i].rect.Area())
  }

  /** One pass of the inner loop: detection i looks at a later detection j. */
  function Step(s: seq<Detection>, i: nat, j: nat, d: set<int>): (r: set<int>)
    requires i < j < |s|
    ensures d <= r && r <= d + {i, j}
    ensures !Contained(s, i, j) ==> r == d
    ensures Contained(s, i, j) && Near(s, i, j) && s[i].rate <= s[j].rate ==> i in r
    ensures Contained(s, i, j) && !(Near(s, i, j) && s[i].rate <= s[j].rate) ==> j in r
    ensures i in r - d ==> Contained(s, i, j) && Near(s, i, j) && s[i].rate <= s[j].rate
    ensures j in r - d ==> Contained(s, i, j) && !(Near(s, i, j) && s[i].rate <= s[j].rate)
  {
    if !Contained(s, i, j) then d
    else if Near(s, i, j) then (if s[i].rate > s[j].rate then d + {j} else d + {i})
    else d + {j}
  }

  /** The marks after the inner loop for i has looked at i + 1 .. j - 1, starting from d. */
  function Inner(s: seq<Detection>, i: nat, d: set<int>, j: nat): set<int>
    requires i < j <= |s|
    decreases j
  {
    if j == i + 1 then d else Step(s, i, j - 1, Inner(s, i, d, j - 1))
  }

  /** One pass of the outer loop: a marked i is skipped, otherwise its inner loop runs. */
  function Visit(s: seq<Detection>, i: nat, d: set<int>): set<int>
    requires i < |s|
  {
    if i in d then d else Inner(s, i, d, |s|)
  }

  /** The marks after the outer loop has visited 0 .. n - 1. */
  function Marked(s: seq<Detection>, n: nat): set<int>
    requires n <= |s|
  {
    if n == 0 then {} else Visit(s, n - 1, Marked(s, n - 1))
  }

  /** The set `GetTemplatesToDel` returns for the sorted list s. */
  function TemplatesToDelete(s: seq<Detection>): set<int> {
    Marked(s, |s|)
  }

  /** The entries of s whose positions are not in del, in order. */
  function Survivors(s: seq<Detection>, del: set<int>): seq<Detection>
    decreases |s|
  {
    if |s| == 0 then []
    else Survivors(s[..|s| - 1], del) + (if |s| - 1 in del then [] else [s[|s| - 1]])
  }

  /** The list `FilterByIntersection` leaves for the sorted list s. */
  function Deduplicated(s: seq<Detection>): seq<Detection> {
    Survivors(s, TemplatesToDelete(s))
  }

  /** The positions below n that are not in del, in increasing order. */
  function KeptIndices(n: nat, del: set<int>): seq<nat> {
    if n == 0 then []
    else KeptIndices(n - 1, del) + (if n - 1 in del then [] else [n - 1])
  }

  // ---------------------------------------------------------------------------
  // The methods

  /** The position of a largest-area detection at or after lo. */
  method LargestAreaFrom(a: array<Detection>, lo: nat) returns (m: nat)
    requires lo < a.Length
    ensures lo <= m < a.Length
    ensures forall k :: lo <= k < a.Length ==> a[k].rect.Area() <= a[m].rect.Area()
  {
    m := lo;
    for k := lo + 1 to a.Length
      invariant lo <= m < a.Length
      invariant forall t :: lo <= t < k ==> a[t].rect.Area() <= a[m].rect.Area()
    {
      if a[k].rect.Area() > a[m].rect.Area() {
        m := k;
      }
    }
  }

  /** `templates.Sort` with the comparison that orders by descending bounding-rectangle
      area. The library sort is not stable, so only the order of areas is promised. */
  method SortByAreaDescending(a: array<Detection>)
    modifies a
    ensures SortedByAreaDescending(a[..])
    ensures multiset(a[..]) == old(multiset(a[..]))
  {
    for i := 0 to a.Length
      invariant forall p, q :: 0 <= p < q < i ==> a[p].rect.Area() >= a[q].rect.Area()
      invariant forall p, q :: 0 <= p < i <= q < a.Length ==> a[p].rect.Area() >= a[q].rect.Area()
      invariant multiset(a[..]) == old(multiset(a[..]))
    {
      var m := LargestAreaFrom(a, i);
      a[i], a[m] := a[m], a[i];
    }
  }

  /** `GetTemplatesToDel`: sorts the list in place, then collects the positions to delete. */
  method GetTemplatesToDel(templates: array<Detection>) returns (toDel: set<int>)
    modifies templates
    ensures multiset(templates[..]) == old(multiset(templates[..]))
    ensures SortedByAreaDescending(templates[..])
    ensures toDel == TemplatesToDelete(templates[..])
  {
    SortByAreaDescending(templates);
    ghost var s := templates[..];
    toDel := {};
    for i := 0 to templates.Length
      invariant templates[..] == s
      invariant toDel == Marked(s, i)
    {
      if i in toDel {
        continue;
      }
      var bigRect := templates[i].rect;
      var bigArea := templates[i].rect.Area();
      bigRect := bigRect.Inflate(Margin, Margin);
      ghost var before := toDel;
      for j := i + 1 to templates.Length
        invariant toDel == Inner(s, i, before, j)
      {
        if bigRect.Contains(templates[j].rect) {
          var a := templates[j].rect.Area();
          if NearSameSize(a, bigArea) {
            if templates[i].rate > templates[j].rate {
              toDel := toDel + {j};
            } else {
              toDel := toDel + {i};
            }
          } else {
            toDel := toDel + {j};
          }
        }
      }
    }
  }

  /** `FilterByIntersection`: the sorted list without the marked positions. */
  method FilterByIntersection(templates: array<Detection>) returns (result: seq<Detection>)
    modifies templates
    ensures multiset(templates[..]) == old(multiset(templates[..]))
    ensures SortedByAreaDescending(templates[..])
    ensures result == Deduplicated(templates[..])
  {
    var toDel := GetTemplatesToDel(templates);
    result := [];
    for i := 0 to templates.Length
      invariant result == Survivors(templates[..i], toDel)
    {
      assert templates[..i + 1][..i] == templates[..i];
      if i !in toDel {
        result := result + [templates[i]];
      }
    }
    assert templates[..templates.Length] == templates[..];
  }

  /** `FilterByIntersectionWithNull`: the sorted list with null at the marked positions. */
  method FilterByIntersectionWithNull(templates: array<Detection>) returns (result: seq<Option<Detection>>)
    modifies templates
    ensures multiset(templates[..]) == old(multiset(templates[..]))
    ensures SortedByAreaDescending(templates[..])
    ensures |result| == templates.Length
    ensures forall k :: 0 <= k < |result| ==>
      result[k] == if k in TemplatesToDelete(templates[..]) then None else Some(templates[k])
  {
    var toDel := GetTemplatesToDel(templates);
    result := [];
    for i := 0 to templates.Length
      invariant |result| == i
      invariant forall k :: 0 <= k < i ==> result[k] == if k in toDel then None else Some(templates[k])
    {
      if i !in toDel {
        result := result + [Some(templates[i])];
      } else {
        result := result + [None];
      }
    }
  }

  // ---------------------------------------------------------------------------
  // What the marks are

  lemma {:induction false} InnerGrows(s: seq<Detection>, i: nat, d: set<int>, j: nat)
    requires i < j <= |s|
    ensures d <= Inner(s, i, d, j)
    decreases j
  {
    if j > i + 1 {
      InnerGrows(s, i, d, j - 1);
    }
  }

  /** Marks are never removed. */
  lemma {:induction false} MarkedGrows(s: seq<Detection>, m: nat, n: nat)
    requires m <= n <= |s|
    ensures Marked(s, m) <= Marked(s, n)
    decreases n
  {
    if m < n {
      MarkedGrows(s, m, n - 1);
      InnerGrows(s, n - 1, Marked(s, n - 1), |s|);
    }
  }

  lemma {:induction false} InnerInRange(s: seq<Detection>, i: nat, d: set<int>, j: nat)
    requires i < j <= |s|
    requires forall k :: k in d ==> 0 <= k < |s|
    ensures forall k :: k in Inner(s, i, d, j) ==> 0 <= k < |s|
    decreases j
  {
    if j > i + 1 {
      InnerInRange(s, i, d, j - 1);
    }
  }

  lemma {:induction false} MarkedInRange(s: seq<Detection>, n: nat)
    requires n <= |s|
    ensures forall k :: k in Marked(s, n) ==> 0 <= k < |s|
    decreases n
  {
    if n > 0 {
      MarkedInRange(s, n - 1);
      InnerInRange(s, n - 1, Marked(s, n - 1), |s|);
    }
  }

  /** Every position `GetTemplatesToDel` returns is a position of the list. */
  lemma TemplatesToDeleteInRange(s: seq<Detection>)
    ensures forall k :: k in TemplatesToDelete(s) ==> 0 <= k < |s|
  {
    MarkedInRange(s, |s|);
  }

  /** Once the inner loop of i has looked at a contained k, it has marked i
      (k is nearly as large and i's rate is not higher) or k (otherwise). */
  lemma {:induction false} InnerDecides(s: seq<Detection>, i: nat, d: set<int>, j: nat, k: nat)
    requires i < k < j <= |s|
    requires Contained(s, i, k)
    ensures Near(s, i, k) && s[i].rate <= s[k].rate ==> i in Inner(s, i, d, j)
    ensures !(Near(s, i, k) && s[i].rate <= s[k].rate) ==> k in Inner(s, i, d, j)
    decreases j
  {
    if k < j - 1 {
      InnerDecides(s, i, d, j - 1, k);
    }
  }

  /** A nearly equal pair whose larger member does not have the strictly higher
      rate loses the larger member: on a tie, i is deleted, not j. */
  lemma LowerRateLoses(s: seq<Detection>, i: nat, j: nat)
    requires i < j < |s|
    requires Contained(s, i, j) && Near(s, i, j) && s[i].rate <= s[j].rate
    ensures i in TemplatesToDelete(s)
  {
    MarkedGrows(s, i, i + 1);
    MarkedGrows(s, i + 1, |s|);
    if i !in Marked(s, i) {
      InnerDecides(s, i, Marked(s, i), |s|, j);
    }
  }

  /** When the outer loop does not skip i, every later j inside i's inflated
      rectangle is deleted unless it is nearly as large and i's rate is not
      higher. The inner loop looks at every later j, marked or not. */
  lemma VisitedDeletesContained(s: seq<Detection>, i: nat, j: nat)
    requires i < j < |s|
    requires i !in Marked(s, i)
    requires Contained(s, i, j) && !(Near(s, i, j) && s[i].rate <= s[j].rate)
    ensures j in TemplatesToDelete(s)
  {
    InnerDecides(s, i, Marked(s, i), |s|, j);
    MarkedGrows(s, i + 1, |s|);
  }

  /** No surviving detection lies inside the inflated rectangle of an earlier survivor. */
  lemma SurvivorPairNotContained(s: seq<Detection>, i: nat, j: nat)
    requires i < j < |s|
    requires i !in TemplatesToDelete(s) && j !in TemplatesToDelete(s)
    ensures !Contained(s, i, j)
  {
    MarkedGrows(s, i, |s|);
    if Contained(s, i, j) {
      if Near(s, i, j) && s[i].rate <= s[j].rate {
        LowerRateLoses(s, i, j);
      } else {
        VisitedDeletesContained(s, i, j);
      }
    }
  }

  /** Why position k may be marked: an earlier detection contains it and does not
      lose to it, or it contains a later, nearly as large detection whose rate is
      at least its own. */
  ghost predicate Justified(s: seq<Detection>, k: nat) {
    (exists i :: 0 <= i < k < |s| && Contained(s, i, k) && !(Near(s, i, k) && s[i].rate <= s[k].rate)) ||
    (exists j :: 0 <= k < j < |s| && Contained(s, k, j) && Near(s, k, j) && s[k].rate <= s[j].rate)
  }

  lemma {:induction false} InnerJustified(s: seq<Detection>, i: nat, d: set<int>, j: nat)
    requires i < j <= |s|
    requires forall k: nat :: k in d ==> Justified(s, k)
    ensures forall k: nat :: k in Inner(s, i, d, j) ==> Justified(s, k)
    decreases j
  {
    if j > i + 1 {
      InnerJustified(s, i, d, j - 1);
      var last := j - 1;
      if Contained(s, i, last) {
        if Near(s, i, last) && s[i].rate <= s[last].rate {
          assert Justified(s, i);
        } else {
          assert Justified(s, last);
        }
      }
    }
  }

  lemma {:induction false} MarkedJustified(s: seq<Detection>, n: nat)
    requires n <= |s|
    ensures forall k: nat :: k in Marked(s, n) ==> Justified(s, k)
    decreases n
  {
    if n > 0 {
      MarkedJustified(s, n - 1);
      InnerJustified(s, n - 1, Marked(s, n - 1), |s|);
    }
  }

  /** Nothing is deleted without a containment that calls for it. */
  lemma DeletionsJustified(s: seq<Detection>)
    ensures forall k: nat :: k in TemplatesToDelete(s) ==> Justified(s, k)
  {
    MarkedJustified(s, |s|);
  }

  // ---------------------------------------------------------------------------
  // What the rebuilt list is

  /** `KeptIndices(n, del)` lists exactly the positions below n outside del,
      in strictly increasing order. */
  lemma {:induction false} KeptIndicesExact(n: nat, del: set<int>)
    ensures forall p :: 0 <= p < |KeptIndices(n, del)| ==>
      KeptIndices(n, del)[p] < n && KeptIndices(n, del)[p] !in del
    ensures forall p, q :: 0 <= p < q < |KeptIndices(n, del)| ==> KeptIndices(n, del)[p] < KeptIndices(n, del)[q]
    ensures forall k :: 0 <= k < n && k !in del ==> k in KeptIndices(n, del)
    decreases n
  {
    if n > 0 {
      KeptIndicesExact(n - 1, del);
    }
  }

  /** Positions below n that are in del. */
  ghost function DeletedBelow(n: nat, del: set<int>): set<int> {
    set k | k in del && 0 <= k < n
  }

  lemma {:induction false} KeptIndicesCount(n: nat, del: set<int>)
    ensures |KeptIndices(n, del)| + |DeletedBelow(n, del)| == n
    decreases n
  {
    if n > 0 {
      KeptIndicesCount(n - 1, del);
      if n - 1 in del {
        assert DeletedBelow(n, del) == DeletedBelow(n - 1, del) + {n - 1};
      } else {
        assert DeletedBelow(n, del) == DeletedBelow(n - 1, del);
      }
    }
  }

  /** The survivors are the entries at the kept positions, in order. */
  lemma {:induction false} SurvivorsAtKeptIndices(s: seq<Detection>, del: set<int>)
    ensures |Survivors(s, del)| == |KeptIndices(|s|, del)|
    ensures forall p :: 0 <= p < |Survivors(s, del)| ==>
      KeptIndices(|s|, del)[p] < |s| && Survivors(s, del)[p] == s[KeptIndices(|s|, del)[p]]
    decreases |s|
  {
    if |s| > 0 {
      var init := s[..|s| - 1];
      SurvivorsAtKeptIndices(init, del);
      KeptIndicesExact(|s| - 1, del);
    }
  }

  /** The survivors keep the order of the list. */
  lemma {:induction false} SurvivorsKeepOrder(s: seq<Detection>, del: set<int>)
    ensures IsSubsequence(Survivors(s, del), s)
    decreases |s|
  {
    if |s| > 0 {
      var init := s[..|s| - 1];
      var last := s[|s| - 1];
      assert init + [last] == s;
      SurvivorsKeepOrder(init, del);
      if |s| - 1 in del {
        assert Survivors(s, del) == Survivors(init, del);
        SubsequenceOfLonger(Survivors(init, del), init, last);
      } else {
        SubsequenceOfBothExtended(Survivors(init, del), init, last);
      }
    }
  }

  /** `FilterByIntersection` removes exactly the marked entries: the result has
      `Count - |toDel|` entries and is a subsequence of the sorted list. */
  lemma DeduplicatedLength(s: seq<Detection>)
    ensures |Deduplicated(s)| == |s| - |TemplatesToDelete(s)| <= |s|
    ensures IsSubsequence(Deduplicated(s), s)
  {
    var del := TemplatesToDelete(s);
    TemplatesToDeleteInRange(s);
    KeptIndicesCount(|s|, del);
    SurvivorsAtKeptIndices(s, del);
    assert DeletedBelow(|s|, del) == del;
    SurvivorsKeepOrder(s, del);
  }

  /** No surviving detection lies inside the inflated rectangle of an earlier one,
      and the survivors stay in descending order of area. */
  lemma DeduplicatedNotContained(s: seq<Detection>)
    ensures forall p, q :: 0 <= p < q < |Deduplicated(s)| ==>
      !Deduplicated(s)[p].rect.Inflate(Margin, Margin).Contains(Deduplicated(s)[q].rect)
    ensures SortedByAreaDescending(s) ==> SortedByAreaDescending(Deduplicated(s))
  {
    var del := TemplatesToDelete(s);
    var out := Deduplicated(s);
    var ki := KeptIndices(|s|, del);
    SurvivorsAtKeptIndices(s, del);
    KeptIndicesExact(|s|, del);
    forall p, q | 0 <= p < q < |out|
      ensures !out[p].rect.Inflate(Margin, Margin).Contains(out[q].rect)
      ensures SortedByAreaDescending(s) ==> out[p].rect.Area() >= out[q].rect.Area()
    {
      SurvivorPairNotContained(s, ki[p], ki[q]);
    }
  }

  // ---------------------------------------------------------------------------
  // Scenarios

  /** Two nested, nearly equal detections: the one with the higher rate stays. */
  lemma NearDuplicateScenario()
    ensures Deduplicated([Detection(Rectangle(0, 0, 50, 50), 0.8), Detection(Rectangle(2, 2, 48, 48), 0.6)])
         == [Detection(Rectangle(0, 0, 50, 50), 0.8)]
  {
    var s := [Detection(Rectangle(0, 0, 50, 50), 0.8), Detection(Rectangle(2, 2, 48, 48), 0.6)];
    assert Contained(s, 0, 1) && Near(s, 0, 1);
    assert Marked(s, 1) == {1};
    assert TemplatesToDelete(s) == {1};
    assert s[..1] == [s[0]] && s[..1][..0] == [];
    assert Survivors(s[..1], {1}) == [s[0]];
  }

  /** A small detection inside a large one is deleted whatever the rates. */
  lemma NestedScenario()
    ensures Deduplicated([Detection(Rectangle(0, 0, 50, 50), 0.3), Detection(Rectangle(5, 5, 10, 10), 0.9)])
         == [Detection(Rectangle(0, 0, 50, 50), 0.3)]
  {
    var s := [Detection(Rectangle(0, 0, 50, 50), 0.3), Detection(Rectangle(5, 5, 10, 10), 0.9)];
    assert Contained(s, 0, 1) && !Near(s, 0, 1);
    assert Marked(s, 1) == {1};
    assert TemplatesToDelete(s) == {1};
    assert s[..1] == [s[0]] && s[..1][..0] == [];
    assert Survivors(s[..1], {1}) == [s[0]];
  }

  /** The containment test runs one way only: an earlier detection's inflated
      rectangle against a later one. Here both detections survive although the
      later one's inflated rectangle contains the earlier one. */
  lemma ConverseContainmentScenario()
    ensures var s := [Detection(Rectangle(0, 0, 19, 19), 0.5), Detection(Rectangle(0, 0, 15, 24), 0.5)];
      SortedByAreaDescending(s) &&
      Deduplicated(s) == s &&
      s[1].rect.Inflate(Margin, Margin).Contains(s[0].rect)
  {
    var s := [Detection(Rectangle(0, 0, 19, 19), 0.5), Detection(Rectangle(0, 0, 15, 24), 0.5)];
    assert !Contained(s, 0, 1);
    assert Marked(s, 1) == {};
    assert Inner(s, 1, {}, 2) == {};
    assert TemplatesToDelete(s) == {};
    assert s[..1] == [s[0]] && s[..1][..0] == [];
    assert Survivors(s[..1], {}) == [s[0]];
  }

  /** A detection that is already marked is skipped by the outer loop, so it
      never deletes what lies inside its own inflated rectangle: here s[0]
      deletes s[1], and s[2], nested in s[1] but out of reach of s[0], survives. */
  lemma SkippedContainerScenario()
    ensures var s := [Detection(Rectangle(0, 0, 20, 20), 0.9), Detection(Rectangle(4, 4, 20, 20), 0.5),
                      Detection(Rectangle(20, 20, 8, 8), 0.5)];
      SortedByAreaDescending(s) &&
      Contained(s, 1, 2) && !Near(s, 1, 2) &&
      Deduplicated(s) == [s[0], s[2]]
  {
    var s := [Detection(Rectangle(0, 0, 20, 20), 0.9), Detection(Rectangle(4, 4, 20, 20), 0.5),
              Detection(Rectangle(20, 20, 8, 8), 0.5)];
    assert Contained(s, 0, 1) && Near(s, 0, 1) && !Contained(s, 0, 2);
    assert Inner(s, 0, {}, 2) == {1};
    assert Marked(s, 1) == {1};
    assert Marked(s, 2) == {1};
    assert Inner(s, 2, {1}, 3) == {1};
    assert TemplatesToDelete(s) == {1};
    assert s[..2] == [s[0], s[1]] && s[..2][..1] == [s[0]] && s[..2][..1][..0] == [];
    assert Survivors(s[..2][..1], {1}) == [s[0]];
    assert Survivors(s[..2], {1}) == [s[0]];
  }

  /** Two equal detections with equal rates: the first (i) is deleted and the second stays. */
  lemma TieScenario()
    ensures Deduplicated([Detection(Rectangle(0, 0, 10, 10), 0.5), Detection(Rectangle(0, 0, 10, 10), 0.5)])
         == [Detection(Rectangle(0, 0, 10, 10), 0.5)]
  {
    var s := [Detection(Rectangle(0, 0, 10, 10), 0.5), Detection(Rectangle(0, 0, 10, 10), 0.5)];
    assert Contained(s, 0, 1) && Near(s, 0, 1);
    assert Marked(s, 1) == {0};
    assert Inner(s, 1, {0}, 2) == {0};
    assert TemplatesToDelete(s) == {0};
    assert s[..1] == [s[0]] && s[..1][..0] == [];
    assert Survivors(s[..1], {0}) == [];
  }
}
