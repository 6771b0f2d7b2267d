/**
 * The seed almanac applied to whole ranges (05/05b-better-2.py): each map
 * line splits every current value range into the pieces outside its source,
 * which stay for the following lines, and the overlap, moved to its dest and
 * kept aside; after the last line the two lists are joined and sorted.  The
 * answer is the least start once all maps have been applied.
 */
module AlmanacRanges {

  import opened Failures
  import opened Ranges
  import opened Almanac

  // ---------------------------------------------------------------------------
  // sorted(): ranges ordered by start, then stop
  // ---------------------------------------------------------------------------

  /** The dataclass order of Range: by start, then by stop. */
  predicate LessEq(a: Range, b: Range)
  {
    a.start < b.start || (a.start == b.start && a.stop <= b.stop)
  }

  predicate Ascending(rs: seq<Range>)
  {
    forall i, j | 0 <= i < j < |rs| :: LessEq(rs[i], rs[j])
  }

  /** Put x before the first element it does not follow. */
  function Insert(x: Range, rs: seq<Range>): seq<Range>
  {
    if rs == [] then [x]
    else if LessEq(x, rs[0]) then [x] + rs
    else [rs[0]] + Insert(x, rs[1..])
  }

  /** Inserting adds x once and nothing else. */
  lemma {:induction false} InsertMembers(x: Range, rs: seq<Range>)
    ensures multiset(Insert(x, rs)) == multiset(rs) + multiset{x}
  {
    if rs != [] && !LessEq(x, rs[0]) {
      InsertMembers(x, rs[1..]);
      assert rs == [rs[0]] + rs[1..];
    }
  }

  /** Every element of the list follows b. */
  predicate Follows(b: Range, rs: seq<Range>)
  {
    forall k | 0 <= k < |rs| :: LessEq(b, rs[k])
  }

  /** Inserting an element that follows b keeps every element after b. */
  lemma {:induction false} InsertFollows(b: Range, x: Range, rs: seq<Range>)
    requires Follows(b, rs) && LessEq(b, x)
    ensures Follows(b, Insert(x, rs))
  {
    if rs != [] && !LessEq(x, rs[0]) {
      InsertFollows(b, x, rs[1..]);
    }
  }

  /** Inserting into an ascending list keeps it ascending. */
  lemma {:induction false} InsertAscending(x: Range, rs: seq<Range>)
    requires Ascending(rs)
    ensures Ascending(Insert(x, rs))
  {
    if rs != [] && !LessEq(x, rs[0]) {
      var rest := Insert(x, rs[1..]);
      InsertAscending(x, rs[1..]);
      InsertFollows(rs[0], x, rs[1..]);
      assert Follows(rs[0], rest);
      var r := [rs[0]] + rest;
      forall i, j | 0 <= i < j < |r|
        ensures LessEq(r[i], r[j])
      {
        assert r[j] == rest[j - 1];
        if i > 0 {
          assert r[i] == rest[i - 1];
        }
      }
    }
  }

  /** sorted: insertion of each range into the sorted rest. */
  function Sort(rs: seq<Range>): seq<Range>
  {
    if rs == [] then [] else Insert(rs[0], Sort(rs[1..]))
  }

  /** sorted gives the ranges in ascending order, each as often as before. */
  lemma {:induction false} SortSpec(rs: seq<Range>)
    ensures Ascending(Sort(rs)) && multiset(Sort(rs)) == multiset(rs)
  {
    if rs != [] {
      SortSpec(rs[1..]);
      InsertAscending(rs[0], Sort(rs[1..]));
      InsertMembers(rs[0], Sort(rs[1..]));
      assert rs == [rs[0]] + rs[1..];
    }
  }

  /** Ranges with the same members, counted alike, cover the same values and have the same size. */
  lemma {:induction false} SameMembers(a: seq<Range>, b: seq<Range>, v: int)
    requires multiset(a) == multiset(b)
    ensures Covers(a, v) <==> Covers(b, v)
    ensures TotalSize(a) == TotalSize(b)
  {
    MembersCover(a, v);
    MembersCover(b, v);
    SameMembersSize(a, b);
  }

  /** Ranges with the same members, counted alike, have the same size. */
  lemma {:induction false} SameMembersSize(a: seq<Range>, b: seq<Range>)
    requires multiset(a) == multiset(b)
    ensures TotalSize(a) == TotalSize(b)
    decreases |a|
  {
    if a != [] {
      var x := a[|a| - 1];
      var k := TakeOut(a, b);
      SameMembersSize(a[..|a| - 1], b[..k] + b[k + 1..]);
      TotalSizeAppend(a[..|a| - 1], [x]);
      TotalSizeAppend(b[..k], [x]);
      TotalSizeAppend(b[..k] + [x], b[k + 1..]);
      TotalSizeAppend(b[..k], b[k + 1..]);
      assert TotalSize([x]) == Size(x) by {
        assert [x][..0] == [];
      }
    } else {
      assert b == [];
    }
  }

  /** The last member of a is at some index k of b, and what is left of each has the same members. */
  lemma {:induction false} TakeOut(a: seq<Range>, b: seq<Range>) returns (k: nat)
    requires multiset(a) == multiset(b) && a != []
    ensures k < |b| && b[k] == a[|a| - 1]
    ensures a == a[..|a| - 1] + [a[|a| - 1]] && b == b[..k] + [b[k]] + b[k + 1..]
    ensures multiset(a[..|a| - 1]) == multiset(b[..k] + b[k + 1..])
  {
    var x := a[|a| - 1];
    assert x in multiset(b);
    k :| 0 <= k < |b| && b[k] == x;
    assert b == b[..k] + [x] + b[k + 1..];
    assert a == a[..|a| - 1] + [x];
    var rest := b[..k] + b[k + 1..];
    assert multiset(b) == multiset(rest) + multiset{x};
    assert multiset(a) == multiset(a[..|a| - 1]) + multiset{x};
    assert multiset(rest) == multiset(b) - multiset{x};
    assert multiset(a[..|a| - 1]) == multiset(a) - multiset{x};
  }

  /** Covering is having a member that holds the value. */
  lemma {:induction false} MembersCover(rs: seq<Range>, v: int)
    ensures Covers(rs, v) <==> exists r | r in multiset(rs) :: Contains(r, v)
  {
    if exists r | r in multiset(rs) :: Contains(r, v) {
      var r :| r in multiset(rs) && Contains(r, v);
      var k :| 0 <= k < |rs| && rs[k] == r;
    }
  }

  // ---------------------------------------------------------------------------
  // One map applied to ranges, as the loops of part_two do it
  // ---------------------------------------------------------------------------

  /** The inner loop: remap every range by one line, collecting the unmapped and the moved pieces in order. */
  function RemapAll(ranges: seq<Range>, source: Range, dest: Range): Outcome<(seq<Range>, seq<Range>)>
  {
    if ranges == [] then Success(([], []))
    else
      match RemapAll(ranges[..|ranges| - 1], source, dest)
      case Failure(e) => Failure(e)
      case Success((unmapped, moved)) =>
        match Remap(ranges[|ranges| - 1], source, dest)
        case Failure(e) => Failure(e)
        case Success((u, m)) => Success((unmapped + u, moved + m))
  }

  /** The value ranges and the remapped ranges after the first k lines of a map. */
  function LinesState(m: RangeMap, k: nat, ranges: seq<Range>): Outcome<(seq<Range>, seq<Range>)>
    requires k <= |m|
  {
    if k == 0 then Success((ranges, []))
    else
      match LinesState(m, k - 1, ranges)
      case Failure(e) => Failure(e)
      case Success((values, remapped)) =>
        match RemapAll(values, m[k - 1].0, m[k - 1].1)
        case Failure(e) => Failure(e)
        case Success((next, moved)) => Success((next, remapped + moved))
  }

  /** One transition: all lines of the map, then the leftovers and the remapped ranges joined and sorted. */
  function ApplyMap(m: RangeMap, ranges: seq<Range>): Outcome<seq<Range>>
  {
    match LinesState(m, |m|, ranges)
    case Failure(e) => Failure(e)
    case Success((values, remapped)) => Success(Sort(values + remapped))
  }

  /** The value ranges after the first t transitions; KeyError for a map missing by then. */
  function ApplyMaps(almanac: MapsByName, keys: seq<(string, string)>, t: nat, ranges: seq<Range>): Outcome<seq<Range>>
    requires t <= |keys|
  {
    if t == 0 then Success(ranges)
    else
      match ApplyMaps(almanac, keys, t - 1, ranges)
      case Failure(e) => Failure(e)
      case Success(values) =>
        if keys[t - 1] !in almanac then Failure(KeyError) else ApplyMap(almanac[keys[t - 1]], values)
  }

  /** min(value_range.start for value_range in value_ranges) */
  function MinStart(rs: seq<Range>): (m: int)
    requires rs != []
    ensures exists k | 0 <= k < |rs| :: m == rs[k].start
    ensures forall k | 0 <= k < |rs| :: m <= rs[k].start
  {
    if |rs| == 1 then rs[0].start
    else
      var rest := MinStart(rs[..|rs| - 1]);
      assert forall k | 0 <= k < |rs| - 1 :: rs[..|rs| - 1][k] == rs[k];
      if rs[|rs| - 1].start < rest then rs[|rs| - 1].start else rest
  }

  /** What part_two prints: the least start after every transition; ValueError when no range is left. */
  function PartTwoResult(seeds: seq<int>, almanac: MapsByName): Outcome<int>
  {
    var keys := Steps();
    match ApplyMaps(almanac, keys, |keys|, SeedRanges(seeds))
    case Failure(e) => Failure(e)
    case Success(values) => if values == [] then Failure(ValueError) else Success(MinStart(values))
  }

  /** The body of the loop over one map's lines, as written. */
  method RemapRanges(valueRanges: seq<Range>, source: Range, dest: Range, remapped: seq<Range>)
    returns (r: Outcome<(seq<Range>, seq<Range>)>)
    ensures RemapAll(valueRanges, source, dest).Failure? ==> r == Failure(RemapAll(valueRanges, source, dest).error)
    ensures RemapAll(valueRanges, source, dest).Success? ==>
      r == Success((RemapAll(valueRanges, source, dest).value.0, remapped + RemapAll(valueRanges, source, dest).value.1))
  {
    var nextValues := [];
    var remappedRanges := remapped;
    for i := 0 to |valueRanges|
      invariant RemapAll(valueRanges[..i], source, dest).Success?
      invariant nextValues == RemapAll(valueRanges[..i], source, dest).value.0
      invariant remappedRanges == remapped + RemapAll(valueRanges[..i], source, dest).value.1
    {
      assert valueRanges[..i + 1][..i] == valueRanges[..i];
      var pieces := Remap(valueRanges[i], source, dest);
      if pieces.Failure? {
        RemapAllFailsFrom(valueRanges, source, dest, i + 1);
        return Failure(pieces.error);
      }
      var (unmappedR, remappedR) := pieces.value;
      nextValues := nextValues + unmappedR;
      remappedRanges := remappedRanges + remappedR;
    }
    assert valueRanges[..|valueRanges|] == valueRanges;
    return Success((nextValues, remappedRanges));
  }

  /** A failure on a prefix is the failure of the whole list. */
  lemma {:induction false} RemapAllFailsFrom(ranges: seq<Range>, source: Range, dest: Range, n: nat)
    requires n <= |ranges| && RemapAll(ranges[..n], source, dest).Failure?
    ensures RemapAll(ranges, source, dest) == RemapAll(ranges[..n], source, dest)
    decreases |ranges| - n
  {
    if n < |ranges| {
      assert ranges[..n + 1][..n] == ranges[..n];
      RemapAllFailsFrom(ranges, source, dest, n + 1);
    } else {
      assert ranges[..n] == ranges;
    }
  }

  /** A failure after k lines is the failure of the whole map. */
  lemma {:induction false} LinesStateFailsFrom(m: RangeMap, k: nat, ranges: seq<Range>)
    requires k <= |m| && LinesState(m, k, ranges).Failure?
    ensures LinesState(m, |m|, ranges) == LinesState(m, k, ranges)
    decreases |m| - k
  {
    if k < |m| {
      LinesStateFailsFrom(m, k + 1, ranges);
    }
  }

  /** One transition as written: every line remaps what the earlier lines left, then join and sort. */
  method ApplyRangeMap(m: RangeMap, ranges: seq<Range>) returns (r: Outcome<seq<Range>>)
    ensures r == ApplyMap(m, ranges)
  {
    var valueRanges := ranges;
    var remappedRanges := [];
    for k := 0 to |m|
      invariant LinesState(m, k, ranges) == Success((valueRanges, remappedRanges))
    {
      var (source, dest) := m[k];
      var step := RemapRanges(valueRanges, source, dest, remappedRanges);
      if step.Failure? {
        LinesStateFailsFrom(m, k + 1, ranges);
        return Failure(step.error);
      }
      valueRanges, remappedRanges := step.value.0, step.value.1;
    }
    valueRanges := Sort(valueRanges + remappedRanges);
    return Success(valueRanges);
  }

  /** A failure after t transitions is the failure of them all. */
  lemma {:induction false} ApplyMapsFailsFrom(almanac: MapsByName, keys: seq<(string, string)>, t: nat, ranges: seq<Range>)
    requires t <= |keys| && ApplyMaps(almanac, keys, t, ranges).Failure?
    ensures ApplyMaps(almanac, keys, |keys|, ranges) == ApplyMaps(almanac, keys, t, ranges)
    decreases |keys| - t
  {
    if t < |keys| {
      ApplyMapsFailsFrom(almanac, keys, t + 1, ranges);
    }
  }

  /** One more transition: KeyError for a missing map, otherwise that map applied to the ranges so far. */
  lemma {:induction false} ApplyMapsStep(almanac: MapsByName, keys: seq<(string, string)>, t: nat, ranges: seq<Range>, values: seq<Range>)
    requires t < |keys| && ApplyMaps(almanac, keys, t, ranges) == Success(values)
    ensures ApplyMaps(almanac, keys, t + 1, ranges)
      == if keys[t] !in almanac then Failure(KeyError) else ApplyMap(almanac[keys[t]], values)
  {
  }

  /** The body of the loop over the transitions: look the map up (KeyError when missing) and apply it. */
  method Transition(almanac: MapsByName, key: (string, string), values: seq<Range>) returns (r: Outcome<seq<Range>>)
    ensures r == if key !in almanac then Failure(KeyError) else ApplyMap(almanac[key], values)
  {
    if key !in almanac {
      return Failure(KeyError);
    }
    r := ApplyRangeMap(almanac[key], values);
  }

  /** The loop over the transitions, stopping at the first failure. */
  method ApplyAll(almanac: MapsByName, keys: seq<(string, string)>, ranges: seq<Range>) returns (r: Outcome<seq<Range>>)
    ensures r == ApplyMaps(almanac, keys, |keys|, ranges)
  {
    var valueRanges := ranges;
    for t := 0 to |keys|
      invariant ApplyMaps(almanac, keys, t, ranges) == Success(valueRanges)
    {
      ApplyMapsStep(almanac, keys, t, ranges, valueRanges);
      var next := Transition(almanac, keys[t], valueRanges);
      assert ApplyMaps(almanac, keys, t + 1, ranges) == next;
      if next.Failure? {
        ApplyMapsFailsFrom(almanac, keys, t + 1, ranges);
        return next;
      }
      valueRanges := next.value;
    }
    return Success(valueRanges);
  }

  /**
   * part_two: start from the seed ranges, apply each transition's map
   * (KeyError for a missing one, ValueError from remap), and report the least
   * start of what is left (ValueError when nothing is).
   */
  method PartTwo(seeds: seq<int>, almanac: MapsByName) returns (r: Outcome<int>)
    ensures r == PartTwoResult(seeds, almanac)
  {
    var valueRanges := ApplyAll(almanac, Steps(), SeedRanges(seeds));
    if valueRanges.Failure? {
      return Failure(valueRanges.error);
    }
    if valueRanges.value == [] {
      return Failure(ValueError);
    }
    return Success(MinStart(valueRanges.value));
  }

  // ---------------------------------------------------------------------------
  // What the range pipeline means: the ranges after a map hold exactly the
  // values the map sends the values of the earlier ranges to, as
  // RangeMap.__getitem__ of part one would, and nothing is gained or lost.
  // ---------------------------------------------------------------------------

  /** A single range covers exactly its own values. */
  lemma {:induction false} CoversOne(r: Range, v: int)
    ensures Covers([r], v) <==> Contains(r, v)
  {
    if Contains(r, v) {
      assert Contains([r][0], v);
    }
  }

  /**
   * The inner loop over the value ranges: the unmapped pieces hold exactly
   * the values outside the line's source, every value inside it is moved,
   * everything moved comes from such a value, and the sizes add up.
   */
  lemma {:induction false} RemapAllSpec(ranges: seq<Range>, source: Range, dest: Range, v: int, w: int)
    requires RemapAll(ranges, source, dest).Success?
    ensures var (unmapped, moved) := RemapAll(ranges, source, dest).value;
      && (Covers(unmapped, v) <==> Covers(ranges, v) && !Contains(source, v))
      && (Covers(ranges, v) && Contains(source, v) ==> Covers(moved, Shift(source, dest, v)))
      && (Covers(moved, w) ==>
            Covers(ranges, Shift(dest, source, w)) && Contains(source, Shift(dest, source, w))
            && Shift(source, dest, Shift(dest, source, w)) == w)
      && TotalSize(unmapped) + TotalSize(moved) == TotalSize(ranges)
  {
    RemapAllForward(ranges, source, dest, v);
    RemapAllBack(ranges, source, dest, w);
    RemapAllSize(ranges, source, dest);
  }

  /** Where the inner loop sends a value of the ranges. */
  lemma {:induction false} RemapAllForward(ranges: seq<Range>, source: Range, dest: Range, v: int)
    requires RemapAll(ranges, source, dest).Success?
    ensures var (unmapped, moved) := RemapAll(ranges, source, dest).value;
      && (Covers(unmapped, v) <==> Covers(ranges, v) && !Contains(source, v))
      && (Covers(ranges, v) && Contains(source, v) ==> Covers(moved, Shift(source, dest, v)))
    decreases |ranges|
  {
    if ranges == [] {
      assert RemapAll(ranges, source, dest).value == ([], []);
    } else {
      var init, last := ranges[..|ranges| - 1], ranges[|ranges| - 1];
      RemapAllForward(init, source, dest, v);
      var (u0, m0) := RemapAll(init, source, dest).value;
      var (u, m) := Remap(last, source, dest).value;
      RemapUnmapped(last, source, dest, v);
      RemapRemapped(last, source, dest, v, Shift(source, dest, v));
      CoversAppend(u0, u, v);
      CoversAppend(m0, m, Shift(source, dest, v));
      assert ranges == init + [last];
      CoversAppend(init, [last], v);
      CoversOne(last, v);
    }
  }

  /** Where a value of the moved ranges comes from. */
  lemma {:induction false} RemapAllBack(ranges: seq<Range>, source: Range, dest: Range, w: int)
    requires RemapAll(ranges, source, dest).Success?
    ensures Covers(RemapAll(ranges, source, dest).value.1, w) ==>
      Covers(ranges, Shift(dest, source, w)) && Contains(source, Shift(dest, source, w))
      && Shift(source, dest, Shift(dest, source, w)) == w
    decreases |ranges|
  {
    if ranges != [] {
      var init, last := ranges[..|ranges| - 1], ranges[|ranges| - 1];
      RemapAllBack(init, source, dest, w);
      var (u0, m0) := RemapAll(init, source, dest).value;
      var (u, m) := Remap(last, source, dest).value;
      var back := Shift(dest, source, w);
      RemapRemapped(last, source, dest, back, w);
      CoversAppend(m0, m, w);
      assert ranges == init + [last];
      CoversAppend(init, [last], back);
      CoversOne(last, back);
    }
  }

  /** The inner loop neither gains nor loses values. */
  lemma {:induction false} RemapAllSize(ranges: seq<Range>, source: Range, dest: Range)
    requires RemapAll(ranges, source, dest).Success?
    ensures TotalSize(RemapAll(ranges, source, dest).value.0) + TotalSize(RemapAll(ranges, source, dest).value.1) == TotalSize(ranges)
    decreases |ranges|
  {
    if ranges == [] {
      assert RemapAll(ranges, source, dest).value == ([], []);
    } else {
      var init, last := ranges[..|ranges| - 1], ranges[|ranges| - 1];
      RemapAllSize(init, source, dest);
      var (u0, m0) := RemapAll(init, source, dest).value;
      var (u, m) := Remap(last, source, dest).value;
      RemapSize(last, source, dest);
      TotalSizeAppend(u0, u);
      TotalSizeAppend(m0, m);
    }
  }

  /** A value in the source of some line of a map with one more line: as before, or the new line. */
  lemma {:induction false} ForwardSnoc(a: RangeMap, line: (Range, Range), v: int)
    ensures InSomeSource(a + [line], v) <==> InSomeSource(a, v) || Contains(line.0, v)
    ensures Forward(a + [line], v)
      == if InSomeSource(a, v) then Forward(a, v)
         else if Contains(line.0, v) then Shift(line.0, line.1, v) else v
  {
    var b := a + [line];
    if Contains(line.0, v) {
      assert Contains(b[|a|].0, v);
    }
    if InSomeSource(a, v) {
      var k :| 0 <= k < |a| && Contains(a[k].0, v);
      assert Contains(b[k].0, v);
    }
    if InSomeSource(b, v) {
      var k :| 0 <= k < |b| && Contains(b[k].0, v);
      if k < |a| {
        assert Contains(a[k].0, v);
      }
    }
    if a != [] {
      assert b[0] == a[0] && b[1..] == a[1..] + [line];
      ForwardSnoc(a[1..], line, v);
      if !Contains(a[0].0, v) {
        if InSomeSource(a, v) {
          var k :| 0 <= k < |a| && Contains(a[k].0, v);
          assert Contains(a[1..][k - 1].0, v);
        }
        if InSomeSource(a[1..], v) {
          var k :| 0 <= k < |a[1..]| && Contains(a[1..][k].0, v);
          assert Contains(a[k + 1].0, v);
        }
      }
    } else {
      assert !InSomeSource(a, v);
    }
  }

  /**
   * After the first k lines of a map, the value ranges hold exactly the
   * values of the input that no line so far holds, the remapped ranges hold
   * where the map so far sends every other value, and the sizes add up.
   */
  lemma {:induction false} LinesStateSpec(m: RangeMap, k: nat, ranges: seq<Range>, v: int)
    requires k <= |m| && LinesState(m, k, ranges).Success?
    ensures var (values, remapped) := LinesState(m, k, ranges).value;
      && (Covers(values, v) <==> Covers(ranges, v) && !InSomeSource(m[..k], v))
      && (Covers(ranges, v) && InSomeSource(m[..k], v) ==> Covers(remapped, Forward(m[..k], v)))
      && TotalSize(values) + TotalSize(remapped) == TotalSize(ranges)
  {
    LinesStateForward(m, k, ranges, v);
    LinesStateSize(m, k, ranges);
  }

  /** Where the first k lines of a map send a value of the ranges. */
  lemma {:induction false} LinesStateForward(m: RangeMap, k: nat, ranges: seq<Range>, v: int)
    requires k <= |m| && LinesState(m, k, ranges).Success?
    ensures var (values, remapped) := LinesState(m, k, ranges).value;
      && (Covers(values, v) <==> Covers(ranges, v) && !InSomeSource(m[..k], v))
      && (Covers(ranges, v) && InSomeSource(m[..k], v) ==> Covers(remapped, Forward(m[..k], v)))
  {
    if k == 0 {
      assert !InSomeSource(m[..0], v);
      assert LinesState(m, k, ranges).value == (ranges, []);
    } else {
      LinesStateForward(m, k - 1, ranges, v);
      var (values, remapped) := LinesState(m, k - 1, ranges).value;
      var (source, dest) := m[k - 1];
      var (next, moved) := RemapAll(values, source, dest).value;
      RemapAllForward(values, source, dest, v);
      assert m[..k] == m[..k - 1] + [m[k - 1]];
      ForwardSnoc(m[..k - 1], m[k - 1], v);
      CoversAppend(remapped, moved, Forward(m[..k], v));
    }
  }

  /** The first k lines of a map neither gain nor lose values. */
  lemma {:induction false} LinesStateSize(m: RangeMap, k: nat, ranges: seq<Range>)
    requires k <= |m| && LinesState(m, k, ranges).Success?
    ensures TotalSize(LinesState(m, k, ranges).value.0) + TotalSize(LinesState(m, k, ranges).value.1) == TotalSize(ranges)
  {
    if k == 0 {
      assert LinesState(m, k, ranges).value == (ranges, []);
    } else {
      LinesStateSize(m, k - 1, ranges);
      var (values, remapped) := LinesState(m, k - 1, ranges).value;
      var (source, dest) := m[k - 1];
      var (next, moved) := RemapAll(values, source, dest).value;
      RemapAllSize(values, source, dest);
      TotalSizeAppend(remapped, moved);
    }
  }

  /** Every value in the remapped ranges after k lines is where those lines send some value of the input. */
  lemma {:induction false} LinesStateOrigin(m: RangeMap, k: nat, ranges: seq<Range>, w: int) returns (v: int)
    requires k <= |m| && LinesState(m, k, ranges).Success?
    requires Covers(LinesState(m, k, ranges).value.1, w)
    ensures Covers(ranges, v) && InSomeSource(m[..k], v) && Forward(m[..k], v) == w
  {
    if k == 0 {
      assert false;
    } else {
      var (values, remapped) := LinesState(m, k - 1, ranges).value;
      var (source, dest) := m[k - 1];
      var (next, moved) := RemapAll(values, source, dest).value;
      CoversAppend(remapped, moved, w);
      assert m[..k] == m[..k - 1] + [m[k - 1]];
      if Covers(remapped, w) {
        v := LinesStateOrigin(m, k - 1, ranges, w);
      } else {
        v := Shift(dest, source, w);
        RemapAllBack(values, source, dest, w);
        LinesStateForward(m, k - 1, ranges, v);
      }
      ForwardSnoc(m[..k - 1], m[k - 1], v);
    }
  }

  /**
   * One transition sends every value of the input ranges where the map
   * sends it, loses and gains no value, and leaves the ranges sorted.
   */
  lemma {:induction false} ApplyMapSpec(m: RangeMap, ranges: seq<Range>, v: int)
    requires ApplyMap(m, ranges).Success?
    ensures Covers(ranges, v) ==> Covers(ApplyMap(m, ranges).value, Forward(m, v))
    ensures TotalSize(ApplyMap(m, ranges).value) == TotalSize(ranges)
    ensures Ascending(ApplyMap(m, ranges).value)
  {
    var (values, remapped) := LinesState(m, |m|, ranges).value;
    var joined := values + remapped;
    assert m[..|m|] == m;
    LinesStateSpec(m, |m|, ranges, v);
    ForwardSpec(m, v);
    CoversAppend(values, remapped, Forward(m, v));
    TotalSizeAppend(values, remapped);
    SortSpec(joined);
    SameMembers(Sort(joined), joined, Forward(m, v));
  }

  /** Every value after one transition is where the map sends some value of the input. */
  lemma {:induction false} ApplyMapOrigin(m: RangeMap, ranges: seq<Range>, w: int) returns (v: int)
    requires ApplyMap(m, ranges).Success? && Covers(ApplyMap(m, ranges).value, w)
    ensures Covers(ranges, v) && Forward(m, v) == w
  {
    var (values, remapped) := LinesState(m, |m|, ranges).value;
    var joined := values + remapped;
    assert m[..|m|] == m;
    SortSpec(joined);
    SameMembers(Sort(joined), joined, w);
    CoversAppend(values, remapped, w);
    if Covers(values, w) {
      v := w;
      LinesStateForward(m, |m|, ranges, v);
      ForwardSpec(m, v);
    } else {
      v := LinesStateOrigin(m, |m|, ranges, w);
    }
  }

  /** The transitions so far, applied in order, send every seed value where part one's lookups would. */
  lemma {:induction false} ApplyMapsSpec(almanac: MapsByName, keys: seq<(string, string)>, t: nat, ranges: seq<Range>, v: int)
    requires t <= |keys| && ApplyMaps(almanac, keys, t, ranges).Success?
    ensures AllKnown(almanac, keys[..t])
    ensures Covers(ranges, v) ==> Covers(ApplyMaps(almanac, keys, t, ranges).value, Location(InOrder(almanac, keys[..t]), v))
    ensures TotalSize(ApplyMaps(almanac, keys, t, ranges).value) == TotalSize(ranges)
  {
    if t > 0 {
      ApplyMapsSpec(almanac, keys, t - 1, ranges, v);
      var values := ApplyMaps(almanac, keys, t - 1, ranges).value;
      assert keys[..t] == keys[..t - 1] + [keys[t - 1]];
      assert keys[..t][..t - 1] == keys[..t - 1];
      ApplyMapSpec(almanac[keys[t - 1]], values, Location(InOrder(almanac, keys[..t - 1]), v));
    }
  }

  /** Every value left after the transitions so far is where part one's lookups send some seed value. */
  lemma {:induction false} ApplyMapsOrigin(almanac: MapsByName, keys: seq<(string, string)>, t: nat, ranges: seq<Range>, w: int)
    returns (v: int)
    requires t <= |keys| && ApplyMaps(almanac, keys, t, ranges).Success?
    requires Covers(ApplyMaps(almanac, keys, t, ranges).value, w)
    ensures AllKnown(almanac, keys[..t]) && Covers(ranges, v) && Location(InOrder(almanac, keys[..t]), v) == w
  {
    if t == 0 {
      v := w;
    } else {
      var values := ApplyMaps(almanac, keys, t - 1, ranges).value;
      var before := ApplyMapOrigin(almanac[keys[t - 1]], values, w);
      v := ApplyMapsOrigin(almanac, keys, t - 1, ranges, before);
      assert keys[..t] == keys[..t - 1] + [keys[t - 1]];
      assert keys[..t][..t - 1] == keys[..t - 1];
    }
  }

  /** No range of the list is empty. */
  predicate NonEmpty(rs: seq<Range>)
  {
    forall k | 0 <= k < |rs| :: rs[k].start <= rs[k].stop
  }

  /** The inner loop cuts non-empty ranges into non-empty pieces. */
  lemma {:induction false} RemapAllNonEmpty(ranges: seq<Range>, source: Range, dest: Range)
    requires RemapAll(ranges, source, dest).Success? && NonEmpty(ranges)
    ensures NonEmpty(RemapAll(ranges, source, dest).value.0) && NonEmpty(RemapAll(ranges, source, dest).value.1)
    decreases |ranges|
  {
    if ranges != [] {
      var init, last := ranges[..|ranges| - 1], ranges[|ranges| - 1];
      RemapAllNonEmpty(init, source, dest);
      var (u, m) := Remap(last, source, dest).value;
      RemapNonEmpty(last, source, dest);
      assert forall k | 0 <= k < |u| :: u[k] in u + m;
      assert forall k | 0 <= k < |m| :: m[k] in u + m;
    }
  }

  /** The lines of a map keep the ranges non-empty. */
  lemma {:induction false} LinesStateNonEmpty(m: RangeMap, k: nat, ranges: seq<Range>)
    requires k <= |m| && LinesState(m, k, ranges).Success? && NonEmpty(ranges)
    ensures NonEmpty(LinesState(m, k, ranges).value.0) && NonEmpty(LinesState(m, k, ranges).value.1)
  {
    if k > 0 {
      LinesStateNonEmpty(m, k - 1, ranges);
      var (values, remapped) := LinesState(m, k - 1, ranges).value;
      RemapAllNonEmpty(values, m[k - 1].0, m[k - 1].1);
    }
  }

  /** The transitions keep the ranges non-empty. */
  lemma {:induction false} ApplyMapsNonEmpty(almanac: MapsByName, keys: seq<(string, string)>, t: nat, ranges: seq<Range>)
    requires t <= |keys| && ApplyMaps(almanac, keys, t, ranges).Success? && NonEmpty(ranges)
    ensures NonEmpty(ApplyMaps(almanac, keys, t, ranges).value)
  {
    if t > 0 {
      ApplyMapsNonEmpty(almanac, keys, t - 1, ranges);
      var values := ApplyMaps(almanac, keys, t - 1, ranges).value;
      var m := almanac[keys[t - 1]];
      LinesStateNonEmpty(m, |m|, values);
      var (left, remapped) := LinesState(m, |m|, values).value;
      var joined := left + remapped;
      SortSpec(joined);
      forall k | 0 <= k < |Sort(joined)|
        ensures Sort(joined)[k].start <= Sort(joined)[k].stop
      {
        assert Sort(joined)[k] in multiset(joined);
      }
    }
  }

  /** With every seed length positive, no seed range is empty. */
  lemma {:induction false} SeedRangesNonEmpty(seeds: seq<int>)
    requires forall i | 0 <= i < |seeds| && i % 2 == 1 :: seeds[i] > 0
    ensures NonEmpty(SeedRanges(seeds))
  {
    var groups := Grouper(seeds, 2);
    forall k | 0 <= k < |groups|
      ensures SeedRanges(seeds)[k].start <= SeedRanges(seeds)[k].stop
    {
      GrouperAt(seeds, 2, k);
      assert groups[k][1] == seeds[2 * k + 1];
    }
  }

  /**
   * The meaning of part_two: the number printed is no greater than the
   * location part one's lookups give any seed of the seed ranges, and, when
   * every seed length is positive, it is the location of one of them.
   */
  lemma {:induction false} PartTwoMeaning(seeds: seq<int>, almanac: MapsByName)
    requires PartTwoResult(seeds, almanac).Success?
    ensures AllKnown(almanac, Steps())
    ensures forall seed | Covers(SeedRanges(seeds), seed) ::
      PartTwoResult(seeds, almanac).value <= Location(InOrder(almanac, Steps()), seed)
    ensures (forall i | 0 <= i < |seeds| && i % 2 == 1 :: seeds[i] > 0) ==>
      exists seed | Covers(SeedRanges(seeds), seed) :: Location(InOrder(almanac, Steps()), seed) == PartTwoResult(seeds, almanac).value
  {
    var keys := Steps();
    var ranges := SeedRanges(seeds);
    LeastBelowAll(almanac, keys, ranges);
    if forall i | 0 <= i < |seeds| && i % 2 == 1 :: seeds[i] > 0 {
      SeedRangesNonEmpty(seeds);
      LeastAttained(almanac, keys, ranges);
    }
  }

  /** The least start left after every map is no greater than the location of any seed in the ranges. */
  lemma {:induction false} LeastBelowAll(almanac: MapsByName, keys: seq<(string, string)>, ranges: seq<Range>)
    requires ApplyMaps(almanac, keys, |keys|, ranges).Success? && ApplyMaps(almanac, keys, |keys|, ranges).value != []
    ensures AllKnown(almanac, keys)
    ensures forall seed | Covers(ranges, seed) ::
      MinStart(ApplyMaps(almanac, keys, |keys|, ranges).value) <= Location(InOrder(almanac, keys), seed)
  {
    var after := ApplyMaps(almanac, keys, |keys|, ranges).value;
    assert keys[..|keys|] == keys;
    ApplyMapsSpec(almanac, keys, |keys|, ranges, 0);
    forall seed | Covers(ranges, seed)
      ensures MinStart(after) <= Location(InOrder(almanac, keys), seed)
    {
      ApplyMapsSpec(almanac, keys, |keys|, ranges, seed);
    }
  }

  /** When every range is non-empty, the least start left is the location of some seed in the ranges. */
  lemma {:induction false} LeastAttained(almanac: MapsByName, keys: seq<(string, string)>, ranges: seq<Range>)
    requires ApplyMaps(almanac, keys, |keys|, ranges).Success? && ApplyMaps(almanac, keys, |keys|, ranges).value != []
    requires NonEmpty(ranges)
    ensures AllKnown(almanac, keys)
    ensures exists seed | Covers(ranges, seed) ::
      Location(InOrder(almanac, keys), seed) == MinStart(ApplyMaps(almanac, keys, |keys|, ranges).value)
  {
    var after := ApplyMaps(almanac, keys, |keys|, ranges).value;
    var least := MinStart(after);
    assert keys[..|keys|] == keys;
    ApplyMapsNonEmpty(almanac, keys, |keys|, ranges);
    var k :| 0 <= k < |after| && least == after[k].start;
    assert Contains(after[k], least);
    var seed := ApplyMapsOrigin(almanac, keys, |keys|, ranges, least);
    assert Covers(ranges, seed);
  }

}
