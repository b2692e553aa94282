/**
 * The aspect-ratio half of the dynamic tiling planner: the candidate grids
 * (`target_ratios`) and the search for the grid whose ratio is closest to the
 * image's (`find_closest_aspect_ratio`).
 */
module AspectRatio {
  import opened Wrappers
  import DivMod

  /** A grid of `cols` tiles across and `rows` tiles down: the source's `(i, j)` ratio pair. */
  datatype Grid = Grid(cols: int, rows: int)

  /** Number of tiles the grid produces (`blocks`). */
  function Count(g: Grid): int {
    g.cols * g.rows
  }

  // ----------------------------------------------------------------------
  // Candidate grids
  // ----------------------------------------------------------------------

  /** Both `i` and `j` lie in `range(1, n + 1)`. */
  predicate WithinSide(n: int, i: int, j: int) {
    1 <= i <= n && 1 <= j <= n
  }

  /**
   * The grids the source's set comprehension collects: `(i, j)` for some `n` in
   * `range(min_num, max_num + 1)` with `i, j` in `range(1, n + 1)` and
   * `min_num <= i*j <= max_num`. (`i, j <= max_num` follows from `n <= max_num`.)
   */
  ghost function TargetRatioSet(minNum: int, maxNum: int): set<Grid>
  {
    set i, j | 1 <= i <= maxNum && 1 <= j <= maxNum
                && (exists n :: minNum <= n <= maxNum && WithinSide(n, i, j))
                && i * j <= maxNum && i * j >= minNum :: Grid(i, j)
  }

  /** The grids with `c` tiles whose column count is at least `i`, by ascending column count. */
  function GridsOfCount(c: int, i: int): seq<Grid>
    requires 1 <= i
    decreases c - i + 1
  {
    if c < i then []
    else (if c % i == 0 then [Grid(i, c / i)] else []) + GridsOfCount(c, i + 1)
  }

  /** The grids whose tile count lies in `[c, maxNum]`, by tile count and then by column count. */
  function CandidatesFrom(c: int, maxNum: int): seq<Grid>
    requires 1 <= c
    decreases maxNum - c + 1
  {
    if maxNum < c then [] else GridsOfCount(c, 1) + CandidatesFrom(c + 1, maxNum)
  }

  /**
   * `target_ratios` after `sorted(..., key=i*j)`. The source sorts a set, so the
   * order among grids with the same tile count is whatever the set yields; this
   * model fixes it to ascending column count.
   */
  function TargetRatios(minNum: int, maxNum: int): seq<Grid>
  {
    CandidatesFrom(if minNum < 1 then 1 else minNum, maxNum)
  }

  /** `a` comes strictly before `b`: fewer tiles, or as many tiles and fewer columns. */
  predicate Before(a: Grid, b: Grid) {
    Count(a) < Count(b) || (Count(a) == Count(b) && a.cols < b.cols)
  }

  ghost predicate StrictlyOrdered(s: seq<Grid>) {
    forall a, b | 0 <= a < b < |s| :: Before(s[a], s[b])
  }

  lemma {:induction false} GridsOfCountMembers(c: int, i: int, g: Grid)
    requires 1 <= i
    ensures g in GridsOfCount(c, i) <==> i <= g.cols && 1 <= g.rows && Count(g) == c
    decreases c - i + 1
  {
    if c < i {
      if i <= g.cols && 1 <= g.rows {
        DivMod.MulMonotone(1, g.rows, g.cols);
      }
    } else {
      GridsOfCountMembers(c, i + 1, g);
      if c % i == 0 {
        var q := c / i;
        assert c == q * i + 0;
        if q < 1 {
          DivMod.MulMonotone(q, 0, i);
        }
      }
      if g.cols == i && 1 <= g.rows && Count(g) == c {
        DivMod.DivModUnique(c, i, g.rows, 0);
      }
    }
  }

  lemma {:induction false} GridsOfCountOrdered(c: int, i: int)
    requires 1 <= i
    ensures StrictlyOrdered(GridsOfCount(c, i))
    decreases c - i + 1
  {
    if i <= c {
      GridsOfCountOrdered(c, i + 1);
      var tail := GridsOfCount(c, i + 1);
      forall g | g in tail ensures i < g.cols && Count(g) == c {
        GridsOfCountMembers(c, i + 1, g);
      }
      if c % i == 0 {
        var head := Grid(i, c / i);
        assert c == (c / i) * i + 0;
        ConcatOrdered([head], tail);
      }
    }
  }

  lemma ConcatOrdered(s: seq<Grid>, t: seq<Grid>)
    requires StrictlyOrdered(s) && StrictlyOrdered(t)
    requires forall x, y | x in s && y in t :: Before(x, y)
    ensures StrictlyOrdered(s + t)
  {

  }

  lemma {:induction false} CandidatesFromMembers(c: int, maxNum: int, g: Grid)
    requires 1 <= c
    ensures g in CandidatesFrom(c, maxNum) <==> 1 <= g.cols && 1 <= g.rows && c <= Count(g) <= maxNum
    decreases maxNum - c + 1
  {
    if maxNum < c {
    } else {
      GridsOfCountMembers(c, 1, g);
      CandidatesFromMembers(c + 1, maxNum, g);
    }
  }

  lemma {:induction false} CandidatesFromOrdered(c: int, maxNum: int)
    requires 1 <= c
    ensures StrictlyOrdered(CandidatesFrom(c, maxNum))
    decreases maxNum - c + 1
  {
    if c <= maxNum {
      var head, tail := GridsOfCount(c, 1), CandidatesFrom(c + 1, maxNum);
      GridsOfCountOrdered(c, 1);
      CandidatesFromOrdered(c + 1, maxNum);
      forall x, y | x in head && y in tail ensures Before(x, y) {
        GridsOfCountMembers(c, 1, x);
        CandidatesFromMembers(c + 1, maxNum, y);
      }
      ConcatOrdered(head, tail);
    }
  }

  /** A grid is a candidate exactly when both sides are positive and its tile count lies in `[minNum, maxNum]`. */
  lemma TargetRatiosMembers(minNum: int, maxNum: int, g: Grid)
    ensures g in TargetRatios(minNum, maxNum) <==> 1 <= g.cols && 1 <= g.rows && minNum <= Count(g) <= maxNum
  {
    var lo := if minNum < 1 then 1 else minNum;
    CandidatesFromMembers(lo, maxNum, g);
    if 1 <= g.cols && 1 <= g.rows {
      DivMod.MulMonotone(1, g.rows, g.cols);
    }
  }

  /** The sorted list holds exactly the grids of the source's comprehension. */
  lemma TargetRatiosMatchComprehension(minNum: int, maxNum: int, g: Grid)
    ensures g in TargetRatios(minNum, maxNum) <==> g in TargetRatioSet(minNum, maxNum)
  {
    TargetRatiosMembers(minNum, maxNum, g);
    if g in TargetRatios(minNum, maxNum) {
      DivMod.MulMonotone(1, g.rows, g.cols);
      DivMod.MulMonotone(1, g.cols, g.rows);
      assert WithinSide(maxNum, g.cols, g.rows);
    }
  }

  /** The list is sorted by tile count and holds every grid once. */
  lemma TargetRatiosSorted(minNum: int, maxNum: int)
    ensures StrictlyOrdered(TargetRatios(minNum, maxNum))
    ensures forall a, b | 0 <= a < b < |TargetRatios(minNum, maxNum)| ::
      Count(TargetRatios(minNum, maxNum)[a]) <= Count(TargetRatios(minNum, maxNum)[b]) &&
      TargetRatios(minNum, maxNum)[a] != TargetRatios(minNum, maxNum)[b]
  {
    CandidatesFromOrdered(if minNum < 1 then 1 else minNum, maxNum);
  }

  /** There is no candidate exactly when `maxNum` is below both `minNum` and 1. */
  lemma TargetRatiosEmpty(minNum: int, maxNum: int)
    ensures TargetRatios(minNum, maxNum) == [] <==> maxNum < minNum || maxNum < 1
  {

  }

  /** Every candidate has at least one row, so its ratio `i / j` is defined. */
  lemma TargetRatiosAdmissible(minNum: int, maxNum: int)
    ensures Admissible(TargetRatios(minNum, maxNum))
  {
    forall g | g in TargetRatios(minNum, maxNum) ensures g.rows != 0 {
      TargetRatiosMembers(minNum, maxNum, g);
    }
  }

  // ----------------------------------------------------------------------
  // Closest aspect ratio
  // ----------------------------------------------------------------------

  function Abs(x: real): real {
    if x < 0.0 then -x else x
  }

  /** Every grid of the list has a non-zero row count, so `ratio[0] / ratio[1]` does not divide by zero. */
  predicate Admissible(ratios: seq<Grid>) {
    forall g | g in ratios :: g.rows != 0
  }

  /** `ratio_diff`: the distance `|width/height - i/j|`, computed exactly rather than in floating point. */
  function RatioDiff(width: int, height: int, g: Grid): real
    requires height != 0 && g.rows != 0
  {
    Abs(width as real / height as real - g.cols as real / g.rows as real)
  }

  /** The distance is the exact fraction `|w*j - h*i| / (h*j)`. */
  lemma RatioDiffAsFraction(width: int, height: int, g: Grid)
    requires height != 0 && g.rows != 0
    ensures height * g.rows != 0
    ensures RatioDiff(width, height, g)
         == Abs((width * g.rows - height * g.cols) as real / (height * g.rows) as real)
  {

  }

  /**
   * The tie-break test `area > 0.5 * image_size * image_size * i * j`, doubled
   * so that it compares integers: the image holds more than half the pixels of
   * the grid's canvas.
   */
  predicate PrefersDenser(width: int, height: int, imageSize: int, g: Grid) {
    2 * (width * height) > imageSize * imageSize * g.cols * g.rows
  }

  /** `best_ratio` and `best_ratio_diff`; `None` stands for the initial `float('inf')`. */
  datatype SearchState = SearchState(best: Grid, bestDiff: Option<real>)

  /** The search state after the loop has visited the first `n` grids of `ratios`. */
  function SearchPrefix(ratios: seq<Grid>, n: nat, width: int, height: int, imageSize: int): SearchState
    requires height != 0 && Admissible(ratios) && n <= |ratios|
  {
    if n == 0 then SearchState(Grid(1, 1), None)
    else
      var st := SearchPrefix(ratios, n - 1, width, height, imageSize);
      var g := ratios[n - 1];
      var diff := RatioDiff(width, height, g);
      if st.bestDiff.None? || diff < st.bestDiff.value then SearchState(g, Some(diff))
      else if diff == st.bestDiff.value && PrefersDenser(width, height, imageSize, g) then SearchState(g, st.bestDiff)
      else st
  }

  /** The grid `find_closest_aspect_ratio` returns for the list `ratios`. */
  function ClosestAspectRatio(ratios: seq<Grid>, width: int, height: int, imageSize: int): Grid
    requires height != 0 && Admissible(ratios)
  {
    SearchPrefix(ratios, |ratios|, width, height, imageSize).best
  }

  /** After `n > 0` steps the best grid is one of the first `n` and no farther than any of them. */
  lemma {:induction false} SearchPrefixNearest(ratios: seq<Grid>, n: nat, width: int, height: int, imageSize: int)
    requires height != 0 && Admissible(ratios) && 0 < n <= |ratios|
    ensures var st := SearchPrefix(ratios, n, width, height, imageSize);
      && st.best in ratios[..n]
      && st.bestDiff == Some(RatioDiff(width, height, st.best))
      && forall k | 0 <= k < n :: RatioDiff(width, height, st.best) <= RatioDiff(width, height, ratios[k])
  {
    if 1 < n {
      SearchPrefixNearest(ratios, n - 1, width, height, imageSize);
      assert ratios[..n - 1] <= ratios[..n];
    }
  }

  /**
   * On an empty list the search falls back to `(1, 1)`; otherwise it returns a
   * member of the list at the least distance from the image's ratio.
   */
  lemma ClosestIsNearest(ratios: seq<Grid>, width: int, height: int, imageSize: int)
    requires height != 0 && Admissible(ratios)
    ensures var best := ClosestAspectRatio(ratios, width, height, imageSize);
      && (ratios == [] ==> best == Grid(1, 1))
      && (ratios != [] ==>
            && best in ratios
            && forall g | g in ratios :: RatioDiff(width, height, best) <= RatioDiff(width, height, g))
  {
    if ratios != [] {
      SearchPrefixNearest(ratios, |ratios|, width, height, imageSize);
      assert ratios[..|ratios|] == ratios;
    }
  }

  /**
   * Index `r` is the one the search settles on among the first `n` grids: it is
   * at the least distance; it is the first grid at that distance or it passes
   * the area test; and no later grid at that distance passes the area test.
   */
  ghost predicate SettlesOn(ratios: seq<Grid>, n: nat, r: nat, width: int, height: int, imageSize: int)
    requires height != 0 && Admissible(ratios) && r < n <= |ratios|
  {
    && (forall k | 0 <= k < n :: RatioDiff(width, height, ratios[r]) <= RatioDiff(width, height, ratios[k]))
    && ((forall k | 0 <= k < r :: RatioDiff(width, height, ratios[r]) < RatioDiff(width, height, ratios[k]))
        || PrefersDenser(width, height, imageSize, ratios[r]))
    && (forall k | r < k < n && RatioDiff(width, height, ratios[k]) == RatioDiff(width, height, ratios[r]) ::
          !PrefersDenser(width, height, imageSize, ratios[k]))
  }

  lemma {:induction false} SearchPrefixSettles(ratios: seq<Grid>, n: nat, width: int, height: int, imageSize: int)
    returns (r: nat)
    requires height != 0 && Admissible(ratios) && 0 < n <= |ratios|
    ensures r < n && SearchPrefix(ratios, n, width, height, imageSize).best == ratios[r]
    ensures SettlesOn(ratios, n, r, width, height, imageSize)
  {
    if n == 1 {
      r := 0;
    } else {
      var r0 := SearchPrefixSettles(ratios, n - 1, width, height, imageSize);
      SearchPrefixNearest(ratios, n - 1, width, height, imageSize);
      var g := ratios[n - 1];
      var d := RatioDiff(width, height, ratios[r0]);
      if RatioDiff(width, height, g) < d {
        r := n - 1;
      } else if RatioDiff(width, height, g) == d && PrefersDenser(width, height, imageSize, g) {
        r := n - 1;
      } else {
        r := r0;
      }
    }
  }

  /**
   * The tie-break rule in full: the result is the grid at the least distance
   * that is either the first one at that distance or the last one at that
   * distance to pass the area test. A strictly closer grid always replaces the
   * current best; an equally close later grid replaces it only when it passes the
   * area test.
   */
  lemma ClosestIsLastPreferredTie(ratios: seq<Grid>, width: int, height: int, imageSize: int) returns (r: nat)
    requires height != 0 && Admissible(ratios) && ratios != []
    ensures r < |ratios| && ClosestAspectRatio(ratios, width, height, imageSize) == ratios[r]
    ensures SettlesOn(ratios, |ratios|, r, width, height, imageSize)
  {
    r := SearchPrefixSettles(ratios, |ratios|, width, height, imageSize);
  }

  /**
   * The choice among equally close grids depends on the order of the list:
   * the same two grids give different answers when swapped.
   */
  lemma TieBreakDependsOnOrder()
    ensures ClosestAspectRatio([Grid(1, 2), Grid(2, 1)], 5, 4, 1) == Grid(2, 1)
    ensures ClosestAspectRatio([Grid(2, 1), Grid(1, 2)], 5, 4, 1) == Grid(1, 2)
  {

  }

  /** `find_closest_aspect_ratio`: one pass over `ratios`, keeping the closest grid seen so far. */
  method FindClosestAspectRatio(ratios: seq<Grid>, width: int, height: int, imageSize: int) returns (best: Grid)
    requires height != 0 && Admissible(ratios)
    ensures best == ClosestAspectRatio(ratios, width, height, imageSize)
    ensures ratios == [] ==> best == Grid(1, 1)
    ensures ratios != [] ==> best in ratios
    ensures ratios != [] ==> forall g | g in ratios :: RatioDiff(width, height, best) <= RatioDiff(width, height, g)
  {
    var bestDiff: Option<real> := None;
    best := Grid(1, 1);
    var area := width * height;
    for k := 0 to |ratios|
      invariant SearchState(best, bestDiff) == SearchPrefix(ratios, k, width, height, imageSize)
    {
      var ratio := ratios[k];
      var ratioDiff := RatioDiff(width, height, ratio);
      if bestDiff.None? || ratioDiff < bestDiff.value {
        bestDiff := Some(ratioDiff);
        best := ratio;
      } else if ratioDiff == bestDiff.value {
        if 2 * area > imageSize * imageSize * ratio.cols * ratio.rows {
          best := ratio;
        }
      }
    }
    ClosestIsNearest(ratios, width, height, imageSize);
  }

  /** The grid `dynamic_preprocess` settles on: the closest of its candidate list. */
  function TargetAspectRatio(minNum: int, maxNum: int, width: int, height: int, imageSize: int): Grid
    requires height != 0
  {
    TargetRatiosAdmissible(minNum, maxNum);
    ClosestAspectRatio(TargetRatios(minNum, maxNum), width, height, imageSize)
  }

  /**
   * The grid chosen from the candidate list has positive sides; it is `(1, 1)`
   * when there is no candidate and otherwise a candidate, so its tile count lies
   * in `[minNum, maxNum]`.
   */
  lemma ChosenGridInRange(minNum: int, maxNum: int, width: int, height: int, imageSize: int)
    requires height != 0
    ensures var g := TargetAspectRatio(minNum, maxNum, width, height, imageSize);
      && 1 <= g.cols && 1 <= g.rows
      && (TargetRatios(minNum, maxNum) == [] ==> g == Grid(1, 1))
      && (TargetRatios(minNum, maxNum) != [] ==> minNum <= Count(g) <= maxNum)
  {
    TargetRatiosAdmissible(minNum, maxNum);
    var ratios := TargetRatios(minNum, maxNum);
    ClosestIsNearest(ratios, width, height, imageSize);
    if ratios != [] {
      TargetRatiosMembers(minNum, maxNum, ClosestAspectRatio(ratios, width, height, imageSize));
    }
  }

  /** A grid at distance zero has exactly the image's ratio: `w * j == h * i`. */
  lemma ZeroDiffSameRatio(width: int, height: int, g: Grid)
    requires height != 0 && g.rows != 0 && RatioDiff(width, height, g) == 0.0
    ensures width * g.rows == height * g.cols
  {
    RatioDiffAsFraction(width, height, g);
    var n, d := width * g.rows - height * g.cols, height * g.rows;
    DivMod.RealQuotient(n, d, 0);
  }

  /**
   * An image exactly twice as wide as it is high, with two tiles allowed and
   * fewer than eight required at most: `(2, 1)` is the only candidate with the
   * image's ratio, so it is chosen.
   */
  lemma TwiceAsWideChosen(minNum: int, maxNum: int, height: int, imageSize: int)
    requires 0 < height && minNum <= 2 <= maxNum < 8
    ensures TargetAspectRatio(minNum, maxNum, 2 * height, height, imageSize) == Grid(2, 1)
  {
    var width := 2 * height;
    var ratios := TargetRatios(minNum, maxNum);
    TargetRatiosAdmissible(minNum, maxNum);
    TargetRatiosMembers(minNum, maxNum, Grid(2, 1));
    ClosestIsNearest(ratios, width, height, imageSize);
    var g := ClosestAspectRatio(ratios, width, height, imageSize);
    TargetRatiosMembers(minNum, maxNum, g);
    RatioDiffAsFraction(width, height, Grid(2, 1));
    assert width * 1 - height * 2 == 0;
    ZeroDiffSameRatio(width, height, g);
    DoubleRatioGrid(height, g);
  }

  /** The only grid with at most seven tiles and ratio exactly 2 is `(2, 1)`. */
  lemma DoubleRatioGrid(height: int, g: Grid)
    requires 0 < height && 1 <= g.rows && Count(g) < 8
    requires (2 * height) * g.rows == height * g.cols
    ensures g == Grid(2, 1)
  {
    assert height * (2 * g.rows - g.cols) == 0;
    assert g.cols == 2 * g.rows;
    if 2 <= g.rows {
      DivMod.MulMonotone(2, g.rows, g.rows);
      DivMod.MulMonotone(2, g.cols, g.rows);
    }
  }

  /** The worked example: a 896 x 448 image, 448-pixel tiles and one to six tiles give the grid `(2, 1)`. */
  lemma WideImageExample()
    ensures TargetAspectRatio(1, 6, 896, 448, 448) == Grid(2, 1)
  {
    TwiceAsWideChosen(1, 6, 448, 448);
  }
}
