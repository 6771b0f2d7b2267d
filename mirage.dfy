/**
 * Mirage Maintenance (09/09.py): each line of readings is extended by one
 * value.  The differences of the line are taken again and again until a
 * level of differences is all zero; the prediction is the sum of the last
 * values of the levels kept.  Part two predicts the value before the first
 * by predicting on the reversed line.
 */
module Mirage {

  import opened Failures

  /** line[1:] - line[:-1]: the differences of neighbouring values, one fewer than the values. */
  function Diffs(xs: seq<int>): (d: seq<int>)
    ensures |d| == if xs == [] then 0 else |xs| - 1
  {
    if |xs| <= 1 then [] else [xs[1] - xs[0]] + Diffs(xs[1..])
  }

  /** Each difference is the next value less the value before it. */
  lemma {:induction false} DiffAt(xs: seq<int>, i: nat)
    requires i + 1 < |xs|
    ensures Diffs(xs)[i] == xs[i + 1] - xs[i]
    decreases i
  {
    if i > 0 {
      DiffAt(xs[1..], i - 1);
    }
  }

  /** numpy.all(xs == 0): true of an empty level too. */
  predicate AllZero(xs: seq<int>)
  {
    forall i | 0 <= i < |xs| :: xs[i] == 0
  }

  function Last(xs: seq<int>): int
    requires xs != []
  {
    xs[|xs| - 1]
  }

  /**
   * The prediction: the last value plus the prediction of the differences,
   * the latter counting 0 once the differences are all zero.
   */
  function Extrapolate(xs: seq<int>): int
    requires xs != []
    decreases |xs|
  {
    var d := Diffs(xs);
    if AllZero(d) then Last(xs) else Last(xs) + Extrapolate(d)
  }

  /** One level of the prediction. */
  lemma {:induction false} ExtrapolateStep(xs: seq<int>)
    requires xs != []
    ensures Extrapolate(xs) == Last(xs) + if AllZero(Diffs(xs)) then 0 else Extrapolate(Diffs(xs))
  {
  }

  /** How many levels predict_next keeps: the line and each level of differences not all zero. */
  function Depth(xs: seq<int>): nat
    requires xs != []
    decreases |xs|
  {
    var d := Diffs(xs);
    if AllZero(d) then 1 else 1 + Depth(d)
  }

  /** The k-th level of differences of xs, xs itself being level 0. */
  function Level(xs: seq<int>, k: nat): seq<int>
    decreases k
  {
    if k == 0 then xs else Level(Diffs(xs), k - 1)
  }

  // ---------------------------------------------------------------------------
  // predict_next
  // ---------------------------------------------------------------------------

  /**
   * predict_next: push levels of differences on top of a stack until the
   * next level would be all zero, then add up the last values from the top
   * down.  An empty line raises IndexError when its last value is read.
   */
  method PredictNext(line: seq<int>) returns (r: Outcome<int>)
    ensures line == [] ==> r == Failure(IndexError)
    ensures line != [] ==> r == Success(Extrapolate(line))
  {
    var stack := [line];
    while true
      invariant stack != [] && stack[|stack| - 1] == line
      invariant forall k | 0 <= k < |stack| - 1 :: stack[k] == Diffs(stack[k + 1]) && !AllZero(stack[k])
      decreases |stack[0]|
    {
      var differences := Diffs(stack[0]);
      if AllZero(differences) {
        break;
      }
      stack := [differences] + stack;
    }
    var value := 0;
    for k := 0 to |stack|
      invariant k == 0 ==> value == 0
      invariant k > 0 ==> stack[k - 1] != [] && value == Extrapolate(stack[k - 1])
    {
      if stack[k] == [] {
        assert k == |stack| - 1 && line == [];
        return Failure(IndexError);
      }
      ExtrapolateStep(stack[k]);
      if k == 0 {
        assert AllZero(Diffs(stack[0]));
      } else {
        assert stack[k - 1] == Diffs(stack[k]) && !AllZero(stack[k - 1]);
      }
      value := Last(stack[k]) + value;
    }
    return Success(value);
  }

  // ---------------------------------------------------------------------------
  // What the prediction means
  // ---------------------------------------------------------------------------

  /** Appending q to a line appends q minus the old last value to its differences. */
  lemma {:induction false} DiffsAppend(xs: seq<int>, q: int)
    requires xs != []
    ensures Diffs(xs + [q]) == Diffs(xs) + [q - Last(xs)]
  {
    var a, b := Diffs(xs + [q]), Diffs(xs) + [q - Last(xs)];
    assert |a| == |b|;
    forall i | 0 <= i < |a|
      ensures a[i] == b[i]
    {
      DiffAt(xs + [q], i);
      if i < |xs| - 1 {
        DiffAt(xs, i);
      }
    }
  }

  lemma {:induction false} AllZeroAppend(d: seq<int>, x: int)
    ensures AllZero(d + [x]) <==> AllZero(d) && x == 0
  {
    if AllZero(d + [x]) {
      assert (d + [x])[|d|] == x;
      assert forall i | 0 <= i < |d| :: d[i] == (d + [x])[i];
    }
  }

  /**
   * The prediction is the one value whose appending keeps the differences
   * at the level predict_next stops at all zero: for every q, that level of
   * the extended line is all zero exactly when q is the prediction.
   */
  lemma {:induction false} PredictionUnique(xs: seq<int>, q: int)
    requires xs != []
    ensures AllZero(Level(xs + [q], Depth(xs))) <==> q == Extrapolate(xs)
    decreases |xs|
  {
    var d := Diffs(xs);
    if AllZero(d) {
      UniqueAtLastLevel(xs, q);
    } else {
      PredictionUnique(d, q - Last(xs));
      UniqueOneLevelDown(xs, q);
    }
  }

  /** Where the differences are all zero, the prediction is the last value. */
  lemma {:induction false} UniqueAtLastLevel(xs: seq<int>, q: int)
    requires xs != [] && AllZero(Diffs(xs))
    ensures AllZero(Level(xs + [q], Depth(xs))) <==> q == Extrapolate(xs)
  {
    LevelOfExtended(xs, q);
    AllZeroAppend(Diffs(xs), q - Last(xs));
  }

  /** Where they are not, the question moves one level down. */
  lemma {:induction false} UniqueOneLevelDown(xs: seq<int>, q: int)
    requires xs != [] && !AllZero(Diffs(xs))
    requires AllZero(Level(Diffs(xs) + [q - Last(xs)], Depth(Diffs(xs)))) <==> q - Last(xs) == Extrapolate(Diffs(xs))
    ensures AllZero(Level(xs + [q], Depth(xs))) <==> q == Extrapolate(xs)
  {
    ExtrapolateStep(xs);
    LevelOfExtended(xs, q);
  }

  /** Whether the level predict_next stops at is all zero for the extended line, seen one level down. */
  lemma {:induction false} LevelOfExtended(xs: seq<int>, q: int)
    requires xs != []
    ensures var d := Diffs(xs);
      AllZero(Level(xs + [q], Depth(xs)))
      == if AllZero(d) then AllZero(d + [q - Last(xs)]) else AllZero(Level(d + [q - Last(xs)], Depth(d)))
  {
    DiffsAppend(xs, q);
  }

  /** Each level of differences is one value shorter than the one it comes from. */
  lemma {:induction false} LevelsShrink(xs: seq<int>, k: nat)
    requires k <= |xs|
    ensures |Level(xs, k)| == |xs| - k
    decreases k
  {
    if k > 0 {
      LevelsShrink(Diffs(xs), k - 1);
    }
  }

  /** predict_next keeps no more levels than the line has values, so its loop ends. */
  lemma {:induction false} DepthBound(xs: seq<int>)
    requires xs != []
    ensures Depth(xs) <= |xs|
    decreases |xs|
  {
    if !AllZero(Diffs(xs)) {
      DepthBound(Diffs(xs));
    }
  }

  /** A constant line predicts that constant. */
  lemma {:induction false} ConstantPredicts(xs: seq<int>, c: int)
    requires xs != [] && forall i | 0 <= i < |xs| :: xs[i] == c
    ensures Extrapolate(xs) == c
  {
    var d := Diffs(xs);
    forall i | 0 <= i < |d|
      ensures d[i] == 0
    {
      DiffAt(xs, i);
    }
  }

  /** A line going up by a step each time predicts one step more. */
  lemma {:induction false} ArithmeticPredicts(xs: seq<int>, a: int, step: int)
    requires |xs| >= 2 && forall i | 0 <= i < |xs| :: xs[i] == a + i * step
    ensures Extrapolate(xs) == a + |xs| * step
  {
    var d := Diffs(xs);
    assert forall i | 0 <= i < |d| :: d[i] == step by {
      forall i | 0 <= i < |d|
        ensures d[i] == step
      {
        DiffAt(xs, i);
        assert xs[i + 1] - xs[i] == (a + (i + 1) * step) - (a + i * step);
      }
    }
    var n := |xs|;
    assert Last(xs) == a + (n - 1) * step;
    OneStepMore(n, step);
    if step != 0 {
      assert d[0] == step;
      ConstantPredicts(d, step);
    }
  }

  lemma {:induction false} OneStepMore(n: int, step: int)
    ensures (n - 1) * step + step == n * step
  {
  }

  // ---------------------------------------------------------------------------
  // part_two: predicting backwards on the reversed line
  // ---------------------------------------------------------------------------

  /** line[::-1] */
  function Reverse(xs: seq<int>): (r: seq<int>)
    ensures |r| == |xs| && forall i | 0 <= i < |xs| :: r[i] == xs[|xs| - 1 - i]
  {
    if xs == [] then [] else Reverse(xs[1..]) + [xs[0]]
  }

  function Negate(xs: seq<int>): (r: seq<int>)
    ensures |r| == |xs| && forall i | 0 <= i < |xs| :: r[i] == -xs[i]
  {
    seq(|xs|, i requires 0 <= i < |xs| => -xs[i])
  }

  /**
   * The value before the first: the first value less the value before the
   * first of the differences, the latter counting 0 once the differences
   * are all zero.
   */
  function ExtrapolateBack(xs: seq<int>): int
    requires xs != []
    decreases |xs|
  {
    var d := Diffs(xs);
    if AllZero(d) then xs[0] else xs[0] - ExtrapolateBack(d)
  }

  /** The differences of a reversed line are those of the line, reversed and negated. */
  lemma {:induction false} DiffsReverse(xs: seq<int>)
    ensures Diffs(Reverse(xs)) == Negate(Reverse(Diffs(xs)))
  {
    var a, b := Diffs(Reverse(xs)), Negate(Reverse(Diffs(xs)));
    assert |a| == |b|;
    forall i | 0 <= i < |a|
      ensures a[i] == b[i]
    {
      DiffAt(Reverse(xs), i);
      DiffAt(xs, |xs| - 2 - i);
      assert a[i] == xs[|xs| - 2 - i] - xs[|xs| - 1 - i];
    }
  }

  /** Negating a line negates its prediction. */
  lemma {:induction false} ExtrapolateNegate(xs: seq<int>)
    requires xs != []
    ensures Extrapolate(Negate(xs)) == -Extrapolate(xs)
    decreases |xs|
  {
    var d := Diffs(xs);
    forall i | 0 <= i < |d|
      ensures Diffs(Negate(xs))[i] == Negate(d)[i]
    {
      DiffAt(Negate(xs), i);
      DiffAt(xs, i);
    }
    assert Diffs(Negate(xs)) == Negate(d);
    if !AllZero(d) {
      ExtrapolateNegate(d);
    }
  }

  /** Predicting on the reversed line gives the value before the first of the line. */
  lemma {:induction false} BackwardsIsReversed(xs: seq<int>)
    requires xs != []
    ensures Extrapolate(Reverse(xs)) == ExtrapolateBack(xs)
    decreases |xs|
  {
    var d := Diffs(xs);
    DiffsReverse(xs);
    assert Diffs(Reverse(xs)) == Negate(Reverse(d));
    if !AllZero(d) {
      assert Reverse(d) != [];
      assert !AllZero(Negate(Reverse(d))) by {
        var i :| 0 <= i < |d| && d[i] != 0;
        assert Negate(Reverse(d))[|d| - 1 - i] == -d[i];
      }
      ExtrapolateNegate(Reverse(d));
      BackwardsIsReversed(d);
    } else {
      assert AllZero(Negate(Reverse(d)));
    }
  }

  // ---------------------------------------------------------------------------
  // part_one and part_two
  // ---------------------------------------------------------------------------

  function Sum(xs: seq<int>): int
  {
    if xs == [] then 0 else Sum(xs[..|xs| - 1]) + xs[|xs| - 1]
  }

  /**
   * The sum of the predictions of the lines, forwards or backwards;
   * IndexError when a line is empty.
   */
  function Total(report: seq<seq<int>>, backwards: bool): Outcome<int>
  {
    TotalOf(report, |report|, backwards)
  }

  /** The total of the first n lines of the report, added up in order. */
  function TotalOf(report: seq<seq<int>>, n: nat, backwards: bool): Outcome<int>
    requires n <= |report|
  {
    if n == 0 then Success(0)
    else
      var before := TotalOf(report, n - 1, backwards);
      if before.Failure? then before
      else if report[n - 1] == [] then Failure(IndexError)
      else Success(before.value + Prediction(report[n - 1], backwards))
  }

  /** The value after the last, or with backwards the value before the first. */
  function Prediction(line: seq<int>, backwards: bool): int
    requires line != []
  {
    if backwards then ExtrapolateBack(line) else Extrapolate(line)
  }

  /** The total fails exactly when some line is empty. */
  lemma {:induction false} TotalFails(report: seq<seq<int>>, backwards: bool)
    ensures Total(report, backwards).Failure? <==> exists i | 0 <= i < |report| :: report[i] == []
    ensures Total(report, backwards).Failure? ==> Total(report, backwards).error == IndexError
  {
    PrefixTotalFails(report, |report|, backwards);
  }

  /** The total of the first n lines fails exactly when one of them is empty. */
  lemma {:induction false} PrefixTotalFails(report: seq<seq<int>>, n: nat, backwards: bool)
    requires n <= |report|
    ensures TotalOf(report, n, backwards).Failure? <==> exists i | 0 <= i < n :: report[i] == []
    ensures TotalOf(report, n, backwards).Failure? ==> TotalOf(report, n, backwards).error == IndexError
  {
    if n > 0 {
      PrefixTotalFails(report, n - 1, backwards);
      if report[n - 1] != [] && exists i | 0 <= i < n :: report[i] == [] {
        var i :| 0 <= i < n && report[i] == [];
        assert i < n - 1;
      }
    }
  }

  /** part_one: the sum of the predictions of the lines, in order. */
  method PartOne(report: seq<seq<int>>) returns (r: Outcome<int>)
    ensures r == Total(report, false)
  {
    var nextValues := [];
    for i := 0 to |report|
      invariant TotalOf(report, i, false) == Success(Sum(nextValues))
    {
      var nextValue := PredictNext(report[i]);
      if nextValue.Failure? {
        PrefixFails(report, false, i);
        LaterFails(report, false, i + 1);
        return nextValue;
      }
      assert nextValue.value == Prediction(report[i], false);
      PrefixGrows(report, false, i, Sum(nextValues));
      SumAppend(nextValues, nextValue.value);
      nextValues := nextValues + [nextValue.value];
    }
    return Success(Sum(nextValues));
  }

  /** part_two: the sum of the predictions of the reversed lines, in order, which are the values before the first. */
  method PartTwo(report: seq<seq<int>>) returns (r: Outcome<int>)
    ensures r == Total(report, true)
  {
    var nextValues := [];
    for i := 0 to |report|
      invariant TotalOf(report, i, true) == Success(Sum(nextValues))
    {
      var nextValue := PredictNext(Reverse(report[i]));
      if nextValue.Failure? {
        PrefixFails(report, true, i);
        LaterFails(report, true, i + 1);
        return nextValue;
      }
      BackwardsIsReversed(report[i]);
      PrefixGrows(report, true, i, Sum(nextValues));
      SumAppend(nextValues, nextValue.value);
      nextValues := nextValues + [nextValue.value];
    }
    return Success(Sum(nextValues));
  }

  /** One more line, empty: the total of the longer prefix fails. */
  lemma {:induction false} PrefixFails(report: seq<seq<int>>, backwards: bool, i: nat)
    requires i < |report| && report[i] == [] && TotalOf(report, i, backwards).Success?
    ensures TotalOf(report, i + 1, backwards) == Failure(IndexError)
  {
  }

  /** One more line, not empty: its prediction is added to the total. */
  lemma {:induction false} PrefixGrows(report: seq<seq<int>>, backwards: bool, i: nat, total: int)
    requires i < |report| && report[i] != [] && TotalOf(report, i, backwards) == Success(total)
    ensures TotalOf(report, i + 1, backwards) == Success(total + Prediction(report[i], backwards))
  {
  }

  lemma {:induction false} SumAppend(values: seq<int>, v: int)
    ensures Sum(values + [v]) == Sum(values) + v
  {
    assert (values + [v])[..|values|] == values;
  }

  /** Once the first k lines fail, the whole report fails the same way. */
  lemma {:induction false} LaterFails(report: seq<seq<int>>, backwards: bool, k: nat)
    requires k <= |report| && TotalOf(report, k, backwards).Failure?
    ensures Total(report, backwards) == TotalOf(report, k, backwards)
    decreases |report| - k
  {
    if k < |report| {
      LaterFails(report, backwards, k + 1);
    }
  }
}
