/**
 * The seed almanac read backwards (05/05b-better.py): a map sends a value in
 * the dest range of its first line that holds it back to the same offset in
 * that line's source range, and leaves any other value alone.  Part two
 * tries locations 0, 1, 2, ... and stops at the first whose seed, found by
 * undoing the maps from the last to the first, lies in a seed range.
 */
module AlmanacReverse {

  import opened Failures
  import opened Ranges
  import opened Almanac

  /** RangeMap.__getitem__ of this program: the first line whose dest holds the value moves it back. */
  function Backward(m: RangeMap, value: int): int
  {
    if m == [] then value
    else if Contains(m[0].1, value) then Shift(m[0].1, m[0].0, value)
    else Backward(m[1..], value)
  }

  /** Line k is the first whose dest range holds the value. */
  predicate FirstDest(m: RangeMap, value: int, k: int)
  {
    0 <= k < |m| && Contains(m[k].1, value) && forall j | 0 <= j < k :: !Contains(m[j].1, value)
  }

  /** The value lies in the dest range of some line of the map. */
  predicate InSomeDest(m: RangeMap, value: int)
  {
    exists k | 0 <= k < |m| :: Contains(m[k].1, value)
  }

  /** A value no dest holds is unchanged; otherwise the first line holding it moves it back. */
  lemma {:induction false} BackwardSpec(m: RangeMap, value: int)
    ensures !InSomeDest(m, value) ==> Backward(m, value) == value
    ensures forall k | FirstDest(m, value, k) :: Backward(m, value) == Shift(m[k].1, m[k].0, value)
  {
    if m != [] {
      BackwardSpec(m[1..], value);
      forall k | 0 <= k < |m[1..]|
        ensures m[1..][k] == m[k + 1]
      {
      }
      forall k | FirstDest(m, value, k)
        ensures Backward(m, value) == Shift(m[k].1, m[k].0, value)
      {
        if k > 0 {
          assert FirstDest(m[1..], value, k - 1);
        }
      }
    }
  }

  /** __getitem__ as written: scan the lines in order and return at the first hit. */
  method ReverseLookup(m: RangeMap, value: int) returns (r: int)
    ensures r == Backward(m, value)
  {
    for k := 0 to |m|
      invariant Backward(m, value) == Backward(m[k..], value)
    {
      var (source, dest) := m[k];
      if Contains(dest, value) {
        return Shift(dest, source, value);
      }
      assert m[k..][1..] == m[k + 1..];
    }
    return value;
  }

  /** The list in reverse order: maps_in_order[::-1]. */
  function Reversed<T>(s: seq<T>): (r: seq<T>)
    ensures |r| == |s| && forall k | 0 <= k < |s| :: r[k] == s[|s| - 1 - k]
  {
    if s == [] then [] else [s[|s| - 1]] + Reversed(s[..|s| - 1])
  }

  /** reduce(lambda v, m: m[v], maps, value): pass the value back through each map in list order. */
  function Unwind(maps: seq<RangeMap>, value: int): int
  {
    if maps == [] then value else Unwind(maps[1..], Backward(maps[0], value))
  }

  /** The seed a location comes from: undo the maps from the last to the first. */
  function SeedOf(maps: seq<RangeMap>, location: int): int
  {
    Unwind(Reversed(maps), location)
  }

  /** Undoing the maps starts with the last one. */
  lemma {:induction false} SeedOfLast(maps: seq<RangeMap>, location: int)
    requires maps != []
    ensures SeedOf(maps, location) == SeedOf(maps[..|maps| - 1], Backward(maps[|maps| - 1], location))
  {
    assert Reversed(maps)[1..] == Reversed(maps[..|maps| - 1]);
  }

  /** No location below `bound` leads back to a seed. */
  predicate NoSeedBelow(seedRanges: seq<Range>, maps: seq<RangeMap>, bound: nat)
  {
    forall v | 0 <= v < bound :: !Covers(seedRanges, SeedOf(maps, v))
  }

  /**
   * The search loop of part_two, cut off after `fuel` locations: try
   * locations 0, 1, 2, ... and stop at the first whose seed lies in a seed
   * range; None when none below `fuel` does.
   */
  method Search(seedRanges: seq<Range>, maps: seq<RangeMap>, fuel: nat) returns (r: Option<nat>)
    ensures r.Some? ==> r.value < fuel && Covers(seedRanges, SeedOf(maps, r.value)) && NoSeedBelow(seedRanges, maps, r.value)
    ensures r.None? ==> NoSeedBelow(seedRanges, maps, fuel)
  {
    var mapsInOrder := Reversed(maps);
    var value: nat := 0;
    while value < fuel
      invariant value <= fuel
      invariant NoSeedBelow(seedRanges, maps, value)
    {
      var result := Unwind(mapsInOrder, value);
      if Covers(seedRanges, result) {
        return Some(value);
      }
      value := value + 1;
    }
    return None;
  }

  /**
   * part_two, with the unbounded search cut off after `fuel` locations:
   * look the maps up by name (KeyError for a missing one), then search.
   * The answer is the least location that leads back to a seed, or None
   * when none below `fuel` does.
   */
  method LeastLocation(seeds: seq<int>, almanac: MapsByName, fuel: nat) returns (r: Outcome<Option<nat>>)
    ensures !AllKnown(almanac, Steps()) ==> r == Failure(KeyError)
    ensures AllKnown(almanac, Steps()) ==>
      var maps := InOrder(almanac, Steps());
      && r.Success?
      && (r.value.Some? ==>
            r.value.value < fuel
            && Covers(SeedRanges(seeds), SeedOf(maps, r.value.value))
            && NoSeedBelow(SeedRanges(seeds), maps, r.value.value))
      && (r.value.None? ==> NoSeedBelow(SeedRanges(seeds), maps, fuel))
  {
    var seedRanges := SeedRanges(seeds);
    var keys := Steps();
    if !AllKnown(almanac, keys) {
      return Failure(KeyError);
    }
    var found := Search(seedRanges, InOrder(almanac, keys), fuel);
    return Success(found);
  }

  // ---------------------------------------------------------------------------
  // When reading backwards agrees with reading forwards
  // ---------------------------------------------------------------------------

  /**
   * A map that is a one-to-one correspondence on the values it touches:
   * each line's ranges have the same size, no two sources and no two dests
   * overlap, and the sources and the dests hold the same values.
   */
  ghost predicate OneToOne(m: RangeMap)
  {
    (forall k | 0 <= k < |m| :: m[k].0.stop - m[k].0.start == m[k].1.stop - m[k].1.start)
    && (forall j, k, v | 0 <= j < k < |m| :: !(Contains(m[j].0, v) && Contains(m[k].0, v)))
    && (forall j, k, v | 0 <= j < k < |m| :: !(Contains(m[j].1, v) && Contains(m[k].1, v)))
    && (forall v :: InSomeSource(m, v) <==> InSomeDest(m, v))
  }

  /** Reading a one-to-one map backwards and then forwards returns the value. */
  lemma {:induction false} BackwardThenForward(m: RangeMap, value: int)
    requires OneToOne(m)
    ensures Forward(m, Backward(m, value)) == value
  {
    BackwardSpec(m, value);
    var u := Backward(m, value);
    if InSomeDest(m, value) {
      var k := FirstDestIndex(m, value);
      assert Contains(m[k].0, u);
      assert FirstSource(m, u, k);
      ForwardSpec(m, u);
    } else {
      ForwardSpec(m, value);
    }
  }

  /** Reading a one-to-one map forwards and then backwards returns the value. */
  lemma {:induction false} ForwardThenBackward(m: RangeMap, value: int)
    requires OneToOne(m)
    ensures Backward(m, Forward(m, value)) == value
  {
    ForwardSpec(m, value);
    var w := Forward(m, value);
    if InSomeSource(m, value) {
      var k := FirstSourceIndex(m, value);
      assert Contains(m[k].1, w);
      assert FirstDest(m, w, k);
      BackwardSpec(m, w);
    } else {
      BackwardSpec(m, value);
    }
  }

  /** The first line whose dest holds a value some dest holds. */
  lemma {:induction false} FirstDestIndex(m: RangeMap, value: int) returns (k: nat)
    requires InSomeDest(m, value)
    ensures FirstDest(m, value, k)
  {
    if Contains(m[0].1, value) {
      return 0;
    }
    forall j | 0 <= j < |m[1..]|
      ensures m[1..][j] == m[j + 1]
    {
    }
    var k' := FirstDestIndex(m[1..], value);
    k := k' + 1;
  }

  /** The first line whose source holds a value some source holds. */
  lemma {:induction false} FirstSourceIndex(m: RangeMap, value: int) returns (k: nat)
    requires InSomeSource(m, value)
    ensures FirstSource(m, value, k)
  {
    if Contains(m[0].0, value) {
      return 0;
    }
    forall j | 0 <= j < |m[1..]|
      ensures m[1..][j] == m[j + 1]
    {
    }
    var k' := FirstSourceIndex(m[1..], value);
    k := k' + 1;
  }

  /** Through one-to-one maps, the location of the seed of a location is that location, and back. */
  lemma {:induction false} SeedOfLocation(maps: seq<RangeMap>, value: int)
    requires forall k | 0 <= k < |maps| :: OneToOne(maps[k])
    ensures Location(maps, SeedOf(maps, value)) == value
    ensures SeedOf(maps, Location(maps, value)) == value
  {
    if maps != [] {
      var init, last := maps[..|maps| - 1], maps[|maps| - 1];
      SeedOfLast(maps, value);
      SeedOfLast(maps, Location(maps, value));
      SeedOfLocation(init, Backward(last, value));
      SeedOfLocation(init, value);
      BackwardThenForward(last, value);
      ForwardThenBackward(last, Location(init, value));
    }
  }

  /**
   * With one-to-one maps the backward search finds what the forward reading
   * means: the answer is the location of a seed, and no seed has a smaller
   * non-negative location.
   */
  lemma {:induction false} LeastLocationMeaning(seeds: seq<int>, maps: seq<RangeMap>, found: nat)
    requires forall k | 0 <= k < |maps| :: OneToOne(maps[k])
    requires Covers(SeedRanges(seeds), SeedOf(maps, found))
    requires NoSeedBelow(SeedRanges(seeds), maps, found)
    ensures exists seed | Covers(SeedRanges(seeds), seed) :: Location(maps, seed) == found
    ensures forall seed | Covers(SeedRanges(seeds), seed) && Location(maps, seed) >= 0 :: Location(maps, seed) >= found
  {
    var seed := SeedOf(maps, found);
    SeedOfLocation(maps, found);
    assert Location(maps, seed) == found;
    forall seed | Covers(SeedRanges(seeds), seed) && Location(maps, seed) >= 0
      ensures Location(maps, seed) >= found
    {
      SeedOfLocation(maps, seed);
    }
  }
}
