/**
 * The seed almanac read forwards (05/05a.py): a map sends a value in the
 * source range of its first line that holds it to the same offset in that
 * line's dest range, and leaves any other value alone.  Part one passes each
 * seed through the maps of consecutive categories, seed to location, and
 * takes the least location.
 */
module Almanac {

  import opened Failures
  import opened Ranges

  /** RangeMap.__getitem__: the first line whose source holds the value moves it; no line, no change. */
  function Forward(m: RangeMap, value: int): int
  {
    if m == [] then value
    else if Contains(m[0].0, value) then Shift(m[0].0, m[0].1, value)
    else Forward(m[1..], value)
  }

  /** Line k is the first whose source range holds the value. */
  predicate FirstSource(m: RangeMap, value: int, k: int)
  {
    0 <= k < |m| && Contains(m[k].0, value) && forall j | 0 <= j < k :: !Contains(m[j].0, value)
  }

  /** The value lies in the source range of some line of the map. */
  predicate InSomeSource(m: RangeMap, value: int)
  {
    exists k | 0 <= k < |m| :: Contains(m[k].0, value)
  }

  /** A value no source holds is unchanged; otherwise the first line holding it moves it. */
  lemma {:induction false} ForwardSpec(m: RangeMap, value: int)
    ensures !InSomeSource(m, value) ==> Forward(m, value) == value
    ensures forall k | FirstSource(m, value, k) :: Forward(m, value) == Shift(m[k].0, m[k].1, value)
  {
    if m != [] {
      ForwardSpec(m[1..], value);
      forall k | 0 <= k < |m[1..]|
        ensures m[1..][k] == m[k + 1]
      {
      }
      forall k | FirstSource(m, value, k)
        ensures Forward(m, value) == Shift(m[k].0, m[k].1, value)
      {
        if k > 0 {
          assert FirstSource(m[1..], value, k - 1);
        }
      }
    }
  }

  /** RangeMap.__getitem__ as written: scan the lines in order and return at the first hit. */
  method Lookup(m: RangeMap, value: int) returns (r: int)
    ensures r == Forward(m, value)
  {
    for k := 0 to |m|
      invariant Forward(m, value) == Forward(m[k..], value)
    {
      var (source, dest) := m[k];
      if Contains(source, value) {
        return Shift(source, dest, value);
      }
      assert m[k..][1..] == m[k + 1..];
    }
    return value;
  }

  /** A value passed through the maps in order. */
  function Location(maps: seq<RangeMap>, value: int): int
  {
    if maps == [] then value else Forward(maps[|maps| - 1], Location(maps[..|maps| - 1], value))
  }

  /** The least of a non-empty list: one of its elements, and no greater than any. */
  function Min(xs: seq<int>): (m: int)
    requires xs != []
    ensures m in xs && forall x | x in xs :: m <= x
  {
    if |xs| == 1 then xs[0]
    else
      var rest := Min(xs[..|xs| - 1]);
      assert xs == xs[..|xs| - 1] + [xs[|xs| - 1]];
      if xs[|xs| - 1] < rest then xs[|xs| - 1] else rest
  }

  /** The consecutive category pairs, seed-to-soil first. */
  function Steps(): seq<(string, string)>
  {
    Pairwise(Transitions)
  }

  /** Seven maps are looked up, from seed-to-soil to humidity-to-location. */
  lemma {:induction false} StepsSpec()
    ensures |Steps()| == 7
    ensures Steps()[0] == ("seed", "soil") && Steps()[6] == ("humidity", "location")
  {
    PairwiseSpec(Transitions);
  }

  /**
   * The inner loop of part_one: look up each named map in turn (KeyError
   * for a missing one) and pass the value through it.
   */
  method PassThrough(almanac: MapsByName, keys: seq<(string, string)>, seed: int) returns (r: Outcome<int>)
    ensures !AllKnown(almanac, keys) ==> r == Failure(KeyError)
    ensures AllKnown(almanac, keys) ==> r == Success(Location(InOrder(almanac, keys), seed))
  {
    var value := seed;
    for t := 0 to |keys|
      invariant AllKnown(almanac, keys[..t])
      invariant value == Location(InOrder(almanac, keys[..t]), seed)
    {
      if keys[t] !in almanac {
        return Failure(KeyError);
      }
      assert keys[..t + 1][..t] == keys[..t];
      value := Lookup(almanac[keys[t]], value);
    }
    assert keys[..|keys|] == keys;
    return Success(value);
  }

  /**
   * part_one: every seed is passed through the maps of consecutive
   * categories, looking each map up by name (KeyError for a missing one),
   * and the answer is the least final value (ValueError when there are no
   * seeds).
   */
  method PartOne(seeds: seq<int>, almanac: MapsByName) returns (r: Outcome<int>)
    ensures seeds == [] ==> r == Failure(ValueError)
    ensures seeds != [] && !AllKnown(almanac, Steps()) ==> r == Failure(KeyError)
    ensures seeds != [] && AllKnown(almanac, Steps()) ==>
      var maps := InOrder(almanac, Steps());
      && r.Success?
      && (forall i | 0 <= i < |seeds| :: r.value <= Location(maps, seeds[i]))
      && (exists i | 0 <= i < |seeds| :: r.value == Location(maps, seeds[i]))
  {
    var keys := Steps();
    var finalValues := [];
    for i := 0 to |seeds|
      invariant |finalValues| == i
      invariant i > 0 ==> AllKnown(almanac, keys)
      invariant forall j | 0 <= j < i :: finalValues[j] == Location(InOrder(almanac, keys), seeds[j])
    {
      var value := PassThrough(almanac, keys, seeds[i]);
      if value.Failure? {
        return value;
      }
      finalValues := finalValues + [value.value];
    }
    if finalValues == [] {
      return Failure(ValueError);
    }
    var least := Min(finalValues);
    assert forall j | 0 <= j < |finalValues| :: finalValues[j] in finalValues;
    var i :| 0 <= i < |finalValues| && finalValues[i] == least;
    r := Success(least);
  }
}
