/**
 * Cosmic Expansion (11/11.py): the galaxies ('#') of an image drift apart
 * because every row and every column holding only empty space ('.') stands
 * for expansion_factor of them.  Each galaxy moves down by expansion_factor - 1
 * for every empty row at or above it and right by as much for every empty
 * column at or left of it; the answer is the sum of the Manhattan distances
 * over all pairs of galaxies.
 *
 * The source names the two coordinates of each galaxy the other way round
 * (its "column" is the row index and its "row" the column index) and pairs
 * them with the sums named the other way round too, so the effect is the
 * one described here; the model uses row and column as they are.
 */
module Cosmos {

  import opened Failures

  type Location = (int, int)

  /** The image, row by row; numpy needs every row to have the same length. */
  predicate Rectangular(image: seq<seq<char>>)
  {
    forall r | 0 <= r < |image| :: |image[r]| == |image[0]|
  }

  function Width(image: seq<seq<char>>): nat
  {
    if image == [] then 0 else |image[0]|
  }

  predicate IsGalaxy(image: seq<seq<char>>, loc: Location)
  {
    0 <= loc.0 < |image| && 0 <= loc.1 < |image[loc.0]| && image[loc.0][loc.1] == '#'
  }

  /** a comes before b in reading order. */
  predicate Before(a: Location, b: Location)
  {
    a.0 < b.0 || (a.0 == b.0 && a.1 < b.1)
  }

  predicate InReadingOrder(locs: seq<Location>)
  {
    forall i, j | 0 <= i < j < |locs| :: Before(locs[i], locs[j])
  }

  // ---------------------------------------------------------------------------
  // numpy.argwhere(galaxy == b'#')
  // ---------------------------------------------------------------------------

  /** The galaxies of row r from column c on, left to right. */
  function RowGalaxies(image: seq<seq<char>>, r: nat, c: nat): (g: seq<Location>)
    requires r < |image| && c <= |image[r]|
    ensures forall loc :: loc in g <==> loc.0 == r && c <= loc.1 && IsGalaxy(image, loc)
    ensures InReadingOrder(g)
    decreases |image[r]| - c
  {
    if c == |image[r]| then []
    else
      var rest := RowGalaxies(image, r, c + 1);
      if image[r][c] == '#' then
        assert forall j | 0 <= j < |rest| :: rest[j] in rest;
        [(r, c)] + rest
      else rest
  }

  /** The galaxies of rows r and below, in reading order. */
  function GalaxiesFrom(image: seq<seq<char>>, r: nat): (g: seq<Location>)
    requires r <= |image|
    ensures forall loc :: loc in g <==> r <= loc.0 && IsGalaxy(image, loc)
    ensures InReadingOrder(g)
    decreases |image| - r
  {
    if r == |image| then []
    else
      var here := RowGalaxies(image, r, 0);
      var below := GalaxiesFrom(image, r + 1);
      assert forall i | 0 <= i < |here| :: here[i] in here;
      assert forall j | 0 <= j < |below| :: below[j] in below;
      here + below
  }

  /** numpy.argwhere: every galaxy of the image, each once, in reading order. */
  function Galaxies(image: seq<seq<char>>): (g: seq<Location>)
    ensures forall loc :: loc in g <==> IsGalaxy(image, loc)
    ensures InReadingOrder(g)
  {
    GalaxiesFrom(image, 0)
  }

  // ---------------------------------------------------------------------------
  // The empty lines and their running counts
  // ---------------------------------------------------------------------------

  predicate EmptyRow(image: seq<seq<char>>, r: nat)
    requires r < |image|
  {
    forall c | 0 <= c < |image[r]| :: image[r][c] == '.'
  }

  predicate EmptyColumn(image: seq<seq<char>>, c: nat)
    requires Rectangular(image) && c < Width(image)
  {
    forall r | 0 <= r < |image| :: image[r][c] == '.'
  }

  /** numpy.all(empty_space, axis=1): whether each row holds only '.'. */
  function EmptyRows(image: seq<seq<char>>): (e: seq<bool>)
    ensures |e| == |image|
    ensures forall r | 0 <= r < |image| :: e[r] == EmptyRow(image, r)
  {
    seq(|image|, r requires 0 <= r < |image| => EmptyRow(image, r))
  }

  /** numpy.all(empty_space, axis=0): whether each column holds only '.'. */
  function EmptyColumns(image: seq<seq<char>>): (e: seq<bool>)
    requires Rectangular(image)
    ensures |e| == Width(image)
    ensures forall c | 0 <= c < Width(image) :: e[c] == EmptyColumn(image, c)
  {
    seq(Width(image), c requires 0 <= c < Width(image) => EmptyColumn(image, c))
  }

  /** numpy.cumsum of a boolean vector: at each index, how many trues up to and including it. */
  function CumSum(bs: seq<bool>): (s: seq<int>)
    ensures |s| == |bs|
  {
    if bs == [] then []
    else
      var prefix := CumSum(bs[..|bs| - 1]);
      prefix + [(if prefix == [] then 0 else prefix[|prefix| - 1]) + (if bs[|bs| - 1] then 1 else 0)]
  }

  /** The indices up to and including i that are true. */
  function TruesUpTo(bs: seq<bool>, i: int): set<nat>
  {
    set k: nat | k <= i && k < |bs| && bs[k]
  }

  /** Each running count adds the entry's own mark to the count before it. */
  lemma {:induction false} CumSumStep(bs: seq<bool>, i: nat)
    requires i < |bs|
    ensures CumSum(bs)[i] == (if i == 0 then 0 else CumSum(bs)[i - 1]) + (if bs[i] then 1 else 0)
    decreases |bs|
  {
    var front := bs[..|bs| - 1];
    if i < |bs| - 1 {
      CumSumStep(front, i);
      assert front[i] == bs[i];
    }
  }

  /** The running count at i is the number of true entries at or before i. */
  lemma {:induction false} CumSumCounts(bs: seq<bool>, i: nat)
    requires i < |bs|
    ensures CumSum(bs)[i] == |TruesUpTo(bs, i)|
  {
    CumSumStep(bs, i);
    if i == 0 {
      if bs[0] {
        assert TruesUpTo(bs, 0) == {0};
      } else {
        assert TruesUpTo(bs, 0) == {};
      }
    } else {
      CumSumCounts(bs, i - 1);
      if bs[i] {
        assert TruesUpTo(bs, i) == TruesUpTo(bs, i - 1) + {i};
      } else {
        assert TruesUpTo(bs, i) == TruesUpTo(bs, i - 1);
      }
    }
  }

  /** Between two indices the running count grows by at least nothing and at most the distance. */
  lemma {:induction false} CumSumGrowth(bs: seq<bool>, i: nat, j: nat)
    requires i <= j < |bs|
    ensures 0 <= CumSum(bs)[j] - CumSum(bs)[i] <= j - i
    decreases j - i
  {
    if i < j {
      CumSumGrowth(bs, i, j - 1);
      CumSumStep(bs, j);
    }
  }

  // ---------------------------------------------------------------------------
  // expand_galaxy
  // ---------------------------------------------------------------------------

  /** A coordinate moved on by (factor - 1) times the running count of empty lines at it. */
  function Shifted(x: nat, factor: int, counts: seq<int>): int
    requires x < |counts|
  {
    x + (factor - 1) * counts[x]
  }

  /** expand_galaxy: each galaxy's row and column shifted by the empty rows and columns at or before them. */
  function Expand(image: seq<seq<char>>, factor: int): (e: seq<Location>)
    requires Rectangular(image)
    ensures |e| == |Galaxies(image)|
  {
    var g := Galaxies(image);
    var rows, columns := CumSum(EmptyRows(image)), CumSum(EmptyColumns(image));
    assert forall i | 0 <= i < |g| :: g[i] in g;
    seq(|g|, i requires 0 <= i < |g| => (Shifted(g[i].0, factor, rows), Shifted(g[i].1, factor, columns)))
  }

  /** The i-th galaxy moved down by factor - 1 per empty row at or above it and right by as much per empty column at or left of it. */
  lemma {:induction false} ExpandedGalaxy(image: seq<seq<char>>, factor: int, i: nat)
    requires Rectangular(image) && i < |Galaxies(image)|
    ensures var g := Galaxies(image)[i];
      var emptyRows := set r: nat | r <= g.0 && r < |image| && EmptyRow(image, r);
      var emptyColumns := set c: nat | c <= g.1 && c < Width(image) && EmptyColumn(image, c);
      Expand(image, factor)[i] == (g.0 + (factor - 1) * |emptyRows|, g.1 + (factor - 1) * |emptyColumns|)
  {
    var g := Galaxies(image)[i];
    assert g in Galaxies(image);
    var rows, columns := EmptyRows(image), EmptyColumns(image);
    CumSumCounts(rows, g.0);
    CumSumCounts(columns, g.1);
    assert TruesUpTo(rows, g.0) == set r: nat | r <= g.0 && r < |image| && EmptyRow(image, r);
    assert TruesUpTo(columns, g.1) == set c: nat | c <= g.1 && c < Width(image) && EmptyColumn(image, c);
  }

  /** With an expansion factor of 1 nothing moves. */
  lemma {:induction false} ExpandByOne(image: seq<seq<char>>)
    requires Rectangular(image)
    ensures Expand(image, 1) == Galaxies(image)
  {
    var g := Galaxies(image);
    assert forall i | 0 <= i < |g| :: g[i] in g;
  }

  /** Shifting with factor at least 1 keeps order and never brings two coordinates closer. */
  lemma {:induction false} ShiftSpreads(x: nat, y: nat, factor: int, bs: seq<bool>)
    requires factor >= 1 && x <= y < |bs|
    ensures Shifted(y, factor, CumSum(bs)) - Shifted(x, factor, CumSum(bs)) >= y - x
  {
    var counts := CumSum(bs);
    CumSumGrowth(bs, x, y);
    ScaleKeepsOrder(factor - 1, counts[x], counts[y]);
  }

  lemma {:induction false} ScaleKeepsOrder(k: int, a: int, b: int)
    requires k >= 0 && a <= b
    ensures k * a <= k * b
  {
    assert k * b - k * a == k * (b - a);
  }

  function Abs(x: int): nat
  {
    if x < 0 then -x else x
  }

  /** The Manhattan distance: numpy.sum(numpy.abs(b - a)) over the two coordinates. */
  function Distance(a: Location, b: Location): nat
  {
    Abs(b.0 - a.0) + Abs(b.1 - a.1)
  }

  /**
   * For an expansion factor of at least 1 the galaxies keep their reading
   * order and no two of them come closer.
   */
  lemma {:induction false} ExpansionSpreads(image: seq<seq<char>>, factor: int, i: nat, j: nat)
    requires Rectangular(image) && factor >= 1 && i < j < |Galaxies(image)|
    ensures var e, g := Expand(image, factor), Galaxies(image);
      Before(e[i], e[j]) && Distance(e[i], e[j]) >= Distance(g[i], g[j])
  {
    var e, g := Expand(image, factor), Galaxies(image);
    assert g[i] in g && g[j] in g;
    var rows, columns := EmptyRows(image), EmptyColumns(image);
    if g[i].0 <= g[j].0 {
      ShiftSpreads(g[i].0, g[j].0, factor, rows);
    }
    if g[i].1 <= g[j].1 {
      ShiftSpreads(g[i].1, g[j].1, factor, columns);
    } else {
      ShiftSpreads(g[j].1, g[i].1, factor, columns);
    }
  }

  /** The expanded galaxies are still listed in reading order. */
  lemma {:induction false} ExpansionKeepsOrder(image: seq<seq<char>>, factor: int)
    requires Rectangular(image) && factor >= 1
    ensures InReadingOrder(Expand(image, factor))
  {
    var e := Expand(image, factor);
    forall i, j | 0 <= i < j < |e|
      ensures Before(e[i], e[j])
    {
      ExpansionSpreads(image, factor, i, j);
    }
  }

  // ---------------------------------------------------------------------------
  // compute_distances
  // ---------------------------------------------------------------------------

  /** The distances from a to each location of rest, added up. */
  function DistancesFrom(a: Location, rest: seq<Location>): nat
  {
    if rest == [] then 0 else Distance(a, rest[0]) + DistancesFrom(a, rest[1..])
  }

  /** The distances over all pairs i < j of the locations, added up. */
  function PairDistances(locs: seq<Location>): nat
  {
    if locs == [] then 0 else DistancesFrom(locs[0], locs[1..]) + PairDistances(locs[1..])
  }

  /**
   * compute_distances: the expanded galaxies' distances over all pairs, one
   * galaxy at a time.  An image without rows is a one-dimensional numpy
   * array, on which the all(axis=1) of expand_galaxy raises AxisError.
   */
  method ComputeDistances(image: seq<seq<char>>, factor: int) returns (r: Outcome<int>)
    requires Rectangular(image)
    ensures image == [] <==> r == Failure(AxisError)
    ensures image != [] ==> r == Success(PairDistances(Expand(image, factor)))
  {
    if image == [] {
      return Failure(AxisError);
    }
    var locations := Expand(image, factor);
    var total := 0;
    for source := 0 to |locations|
      invariant total + PairDistances(locations[source..]) == PairDistances(locations)
    {
      assert locations[source..][1..] == locations[source + 1..];
      total := total + DistancesFrom(locations[source], locations[source + 1..]);
    }
    r := Success(total);
  }

  /** Where every pair is at least as far apart in one listing as in another, so is the sum. */
  lemma {:induction false} PairDistancesGrow(near: seq<Location>, far: seq<Location>)
    requires |near| == |far|
    requires forall i, j | 0 <= i < j < |far| :: Distance(far[i], far[j]) >= Distance(near[i], near[j])
    ensures PairDistances(far) >= PairDistances(near)
  {
    if near != [] {
      DistancesFromGrow(near[0], near[1..], far[0], far[1..]);
      forall i, j | 0 <= i < j < |far| - 1
        ensures Distance(far[1..][i], far[1..][j]) >= Distance(near[1..][i], near[1..][j])
      {
        assert far[1..][i] == far[i + 1] && far[1..][j] == far[j + 1];
        assert near[1..][i] == near[i + 1] && near[1..][j] == near[j + 1];
      }
      PairDistancesGrow(near[1..], far[1..]);
    }
  }

  lemma {:induction false} DistancesFromGrow(a: Location, near: seq<Location>, b: Location, far: seq<Location>)
    requires |near| == |far|
    requires forall j | 0 <= j < |far| :: Distance(b, far[j]) >= Distance(a, near[j])
    ensures DistancesFrom(b, far) >= DistancesFrom(a, near)
  {
    if near != [] {
      assert Distance(b, far[0]) >= Distance(a, near[0]);
      assert forall j | 0 <= j < |far| - 1 :: far[1..][j] == far[j + 1] && near[1..][j] == near[j + 1];
      DistancesFromGrow(a, near[1..], b, far[1..]);
    }
  }

  /** The sum of distances after expanding by a factor of at least 1 is at least the unexpanded sum. */
  lemma {:induction false} ExpansionNeverShrinks(image: seq<seq<char>>, factor: int)
    requires Rectangular(image) && factor >= 1
    ensures PairDistances(Expand(image, factor)) >= PairDistances(Galaxies(image))
  {
    var e, g := Expand(image, factor), Galaxies(image);
    forall i, j | 0 <= i < j < |e|
      ensures Distance(e[i], e[j]) >= Distance(g[i], g[j])
    {
      ExpansionSpreads(image, factor, i, j);
    }
    PairDistancesGrow(g, e);
  }
}
