/**
 * The closed integer range of the day-5 almanac (05/05a.py, 05/05b-better.py
 * and 05/05b-better-2.py define the same class), the split of a range by a
 * source range of a map line, and the `pairwise` and `grouper` helpers the
 * three programs share.
 */
module Ranges {

  import opened Failures

  /** All integers from start to stop, both included; empty when stop < start. */
  datatype Range = Range(start: int, stop: int)

  /** __contains__ */
  predicate Contains(r: Range, value: int)
  {
    r.start <= value <= r.stop
  }

  /** to_offset */
  function ToOffset(r: Range, value: int): int
  {
    value - r.start
  }

  /** from_offset */
  function FromOffset(r: Range, offset: int): int
  {
    offset + r.start
  }

  /** from_start_length: the range of `length` values from start. */
  function FromStartLength(start: int, length: int): Range
  {
    Range(start, start + length - 1)
  }

  /** The number of values in a range. */
  function Size(r: Range): nat
  {
    if r.stop < r.start then 0 else r.stop - r.start + 1
  }

  /** A range of `length` values from start holds exactly the values start .. start + length - 1. */
  lemma {:induction false} FromStartLengthSpec(start: int, length: nat)
    ensures Size(FromStartLength(start, length)) == length
    ensures forall v :: Contains(FromStartLength(start, length), v) <==> start <= v < start + length
  {
  }

  /** The value at the same offset from dest's start as value is from source's start. */
  function Shift(source: Range, dest: Range, value: int): int
  {
    FromOffset(dest, ToOffset(source, value))
  }

  /** convert: move a value of the source range to the dest range; ValueError for a value outside it. */
  function Convert(source: Range, dest: Range, value: int): Outcome<int>
  {
    if !Contains(source, value) then Failure(ValueError)
    else Success(Shift(source, dest, value))
  }

  /**
   * convert fails exactly for values outside the source; otherwise it keeps
   * the offset, lands in dest when the two ranges have the same size, and
   * converting back recovers the value.
   */
  lemma {:induction false} ConvertSpec(source: Range, dest: Range, value: int)
    ensures Convert(source, dest, value).Failure? <==> !Contains(source, value)
    ensures Convert(source, dest, value).Failure? ==> Convert(source, dest, value).error == ValueError
    ensures Convert(source, dest, value).Success? ==>
      var w := Convert(source, dest, value).value;
      ToOffset(dest, w) == ToOffset(source, value)
      && (dest.stop - dest.start == source.stop - source.start ==>
            Contains(dest, w) && Convert(dest, source, w) == Success(value))
  {
  }

  /** The conversion of lo and hi, as the range between them, after the unmapped pieces. */
  function Moved(unmapped: seq<Range>, source: Range, dest: Range, lo: int, hi: int): Outcome<(seq<Range>, seq<Range>)>
  {
    match Convert(source, dest, lo)
    case Failure(e) => Failure(e)
    case Success(first) =>
      match Convert(source, dest, hi)
      case Failure(e) => Failure(e)
      case Success(last) => Success((unmapped, [Range(first, last)]))
  }

  /**
   * remap: split r by the source range into the pieces it leaves unmapped
   * and the overlap moved to dest, in that order; the overlap is converted
   * end by end, so an empty source that r straddles raises ValueError.
   */
  function Remap(r: Range, source: Range, dest: Range): Outcome<(seq<Range>, seq<Range>)>
  {
    if r.start > source.stop || r.stop < source.start then Success(([r], []))
    else if source.start <= r.start then
      if source.stop >= r.stop then Moved([], source, dest, r.start, r.stop)
      else Moved([Range(source.stop + 1, r.stop)], source, dest, r.start, source.stop)
    else if source.stop >= r.stop then Moved([Range(r.start, source.start - 1)], source, dest, source.start, r.stop)
    else Moved([Range(r.start, source.start - 1), Range(source.stop + 1, r.stop)], source, dest, source.start, source.stop)
  }

  /** Some range of the list holds the value. */
  predicate Covers(rs: seq<Range>, value: int)
  {
    exists k | 0 <= k < |rs| :: Contains(rs[k], value)
  }

  /** The number of values of the ranges of a list, counted once per range. */
  function TotalSize(rs: seq<Range>): nat
  {
    if rs == [] then 0 else TotalSize(rs[..|rs| - 1]) + Size(rs[|rs| - 1])
  }

  /** The sizes of two lists joined add up. */
  lemma {:induction false} TotalSizeAppend(a: seq<Range>, b: seq<Range>)
    ensures TotalSize(a + b) == TotalSize(a) + TotalSize(b)
    decreases |b|
  {
    if b != [] {
      assert (a + b)[..|a + b| - 1] == a + b[..|b| - 1];
      TotalSizeAppend(a, b[..|b| - 1]);
    } else {
      assert a + b == a;
    }
  }

  /** Covering by two lists joined is covering by either. */
  lemma {:induction false} CoversAppend(a: seq<Range>, b: seq<Range>, value: int)
    ensures Covers(a + b, value) <==> Covers(a, value) || Covers(b, value)
  {
    if Covers(a + b, value) {
      var k :| 0 <= k < |a + b| && Contains((a + b)[k], value);
      if k >= |a| {
        assert Contains(b[k - |a|], value);
      }
    }
    if Covers(b, value) {
      var k :| 0 <= k < |b| && Contains(b[k], value);
      assert Contains((a + b)[k + |a|], value);
    }
    if Covers(a, value) {
      var k :| 0 <= k < |a| && Contains(a[k], value);
      assert Contains((a + b)[k], value);
    }
  }

  /** remap fails, with ValueError, exactly when r reaches over an empty source from both sides. */
  lemma {:induction false} RemapFails(r: Range, source: Range, dest: Range)
    ensures Remap(r, source, dest).Failure? <==>
      source.stop < source.start && r.start <= source.stop && source.start <= r.stop
    ensures Remap(r, source, dest).Failure? ==> Remap(r, source, dest).error == ValueError
  {
  }

  /** The unmapped pieces of remap hold exactly the values of r outside the source. */
  lemma {:induction false} RemapUnmapped(r: Range, source: Range, dest: Range, v: int)
    requires Remap(r, source, dest).Success?
    ensures Covers(Remap(r, source, dest).value.0, v) <==> Contains(r, v) && !Contains(source, v)
  {
    var unmapped := Remap(r, source, dest).value.0;
    if Contains(r, v) && !Contains(source, v) {
      if v < source.start {
        assert Contains(unmapped[0], v);
      } else {
        assert Contains(unmapped[|unmapped| - 1], v);
      }
    }
  }

  /** The remapped piece of remap holds exactly the shifted values of r inside the source. */
  lemma {:induction false} RemapRemapped(r: Range, source: Range, dest: Range, v: int, w: int)
    requires Remap(r, source, dest).Success?
    ensures |Remap(r, source, dest).value.1| <= 1
    ensures Contains(r, v) && Contains(source, v) ==> Covers(Remap(r, source, dest).value.1, Shift(source, dest, v))
    ensures Covers(Remap(r, source, dest).value.1, w) ==>
      Contains(r, Shift(dest, source, w)) && Contains(source, Shift(dest, source, w))
      && Shift(source, dest, Shift(dest, source, w)) == w
  {
    var remapped := Remap(r, source, dest).value.1;
    if Contains(r, v) && Contains(source, v) {
      assert Contains(remapped[0], Shift(source, dest, v));
    }
  }

  /** remap neither gains nor loses values. */
  lemma {:induction false} RemapSize(r: Range, source: Range, dest: Range)
    requires Remap(r, source, dest).Success?
    ensures TotalSize(Remap(r, source, dest).value.0) + TotalSize(Remap(r, source, dest).value.1) == Size(r)
  {
    var (unmapped, remapped) := Remap(r, source, dest).value;
    if |unmapped| == 2 {
      assert unmapped[..1] == [unmapped[0]];
    }
    if |remapped| == 1 {
      assert remapped[..0] == [];
    }
  }

  /**
   * What remap promises: r is returned whole when it misses the source;
   * otherwise the unmapped pieces hold exactly the values of r outside the
   * source, the one remapped piece holds exactly the shifted values of r
   * inside it, and no value is gained or lost.
   */
  lemma {:induction false} RemapSpec(r: Range, source: Range, dest: Range)
    requires Remap(r, source, dest).Success?
    ensures r.start > source.stop || r.stop < source.start ==> Remap(r, source, dest).value == ([r], [])
    ensures var (unmapped, remapped) := Remap(r, source, dest).value;
      && |remapped| <= 1
      && (forall v :: Covers(unmapped, v) <==> Contains(r, v) && !Contains(source, v))
      && (forall v | Contains(r, v) && Contains(source, v) :: Covers(remapped, Shift(source, dest, v)))
      && (forall w | Covers(remapped, w) ::
            Contains(r, Shift(dest, source, w)) && Contains(source, Shift(dest, source, w))
            && Shift(source, dest, Shift(dest, source, w)) == w)
      && TotalSize(unmapped) + TotalSize(remapped) == Size(r)
  {
    var (unmapped, remapped) := Remap(r, source, dest).value;
    RemapRemapped(r, source, dest, 0, 0);
    forall v
      ensures Covers(unmapped, v) <==> Contains(r, v) && !Contains(source, v)
    {
      RemapUnmapped(r, source, dest, v);
    }
    forall v | Contains(r, v) && Contains(source, v)
      ensures Covers(remapped, Shift(source, dest, v))
    {
      RemapRemapped(r, source, dest, v, v);
    }
    forall w | Covers(remapped, w)
      ensures Contains(r, Shift(dest, source, w)) && Contains(source, Shift(dest, source, w))
    {
      RemapRemapped(r, source, dest, w, w);
    }
    RemapSize(r, source, dest);
  }

  /** A range that is not empty leaves only non-empty pieces. */
  lemma {:induction false} RemapNonEmpty(r: Range, source: Range, dest: Range)
    requires Remap(r, source, dest).Success? && r.start <= r.stop
    ensures forall p | p in Remap(r, source, dest).value.0 + Remap(r, source, dest).value.1 :: p.start <= p.stop
  {
  }

  // ---------------------------------------------------------------------------
  // pairwise and grouper
  // ---------------------------------------------------------------------------

  /** pairwise: each element paired with the next. */
  function Pairwise<T>(s: seq<T>): seq<(T, T)>
  {
    if |s| < 2 then [] else [(s[0], s[1])] + Pairwise(s[1..])
  }

  /** pairwise gives the n - 1 consecutive pairs of n elements, in order. */
  lemma {:induction false} PairwiseSpec<T>(s: seq<T>)
    ensures |Pairwise(s)| == if |s| < 2 then 0 else |s| - 1
    ensures forall i | 0 <= i < |Pairwise(s)| :: Pairwise(s)[i] == (s[i], s[i + 1])
  {
    if |s| >= 2 {
      PairwiseSpec(s[1..]);
    }
  }

  /** grouper: consecutive groups of n, dropping an incomplete tail; nothing for n = 0. */
  function Grouper<T>(s: seq<T>, n: nat): (groups: seq<seq<T>>)
    ensures forall g | g in groups :: |g| == n
  {
    if n == 0 || |s| < n then [] else [s[..n]] + Grouper(s[n..], n)
  }

  /** There are as many groups as whole multiples of n fit in s. */
  lemma {:induction false} GrouperLength<T>(s: seq<T>, n: nat)
    requires n > 0
    ensures n * |Grouper(s, n)| <= |s| < n * |Grouper(s, n)| + n
    decreases |s|
  {
    if |s| >= n {
      var g := |Grouper(s[n..], n)|;
      GrouperLength(s[n..], n);
      assert |Grouper(s, n)| == g + 1;
      MulSucc(n, g);
    }
  }

  lemma {:induction false} MulSucc(n: int, g: int)
    ensures n * (g + 1) == n * g + n
  {
  }

  /** Group i holds the elements n * i .. n * i + n - 1. */
  lemma {:induction false} GrouperAt<T>(s: seq<T>, n: nat, i: nat)
    requires n > 0 && i < |Grouper(s, n)|
    ensures n * i + n <= |s| && Grouper(s, n)[i] == s[n * i..n * i + n]
    decreases i
  {
    assert |s| >= n && Grouper(s, n) == [s[..n]] + Grouper(s[n..], n);
    if i > 0 {
      var rest := s[n..];
      var m := n * (i - 1);
      GrouperAt(rest, n, i - 1);
      MulSucc(n, i - 1);
      assert n * i == m + n;
      assert Grouper(s, n)[i] == Grouper(rest, n)[i - 1];
      assert rest[m..m + n] == s[m + n..m + n + n];
    } else {
      assert n * i == 0;
    }
  }

  /** grouper yields the whole blocks of n elements of s, in order, dropping the incomplete tail. */
  lemma {:induction false} GrouperSpec<T>(s: seq<T>, n: nat)
    requires n > 0
    ensures n * |Grouper(s, n)| <= |s| < n * |Grouper(s, n)| + n
    ensures forall i | 0 <= i < |Grouper(s, n)| :: n * i + n <= |s| && Grouper(s, n)[i] == s[n * i..n * i + n]
  {
    GrouperLength(s, n);
    forall i | 0 <= i < |Grouper(s, n)|
      ensures n * i + n <= |s| && Grouper(s, n)[i] == s[n * i..n * i + n]
    {
      GrouperAt(s, n, i);
    }
  }

  /** The names of the almanac's categories, in the order values pass through them. */
  const Transitions: seq<string> :=
    ["seed", "soil", "fertilizer", "water", "light", "temperature", "humidity", "location"]

  /** seed_ranges: the seed list read as (start, length) pairs. */
  function SeedRanges(seeds: seq<int>): seq<Range>
  {
    var groups := Grouper(seeds, 2);
    seq(|groups|, k requires 0 <= k < |groups| => FromStartLength(groups[k][0], groups[k][1]))
  }

  /** A map's lines: each pairs a source range with the dest range it moves to. */
  type RangeMap = seq<(Range, Range)>

  /** The parsed maps, keyed by (from, to) category names. */
  type MapsByName = map<(string, string), RangeMap>

  /** Every key names a map of the almanac; otherwise looking one up raises KeyError. */
  predicate AllKnown(almanac: MapsByName, keys: seq<(string, string)>)
  {
    forall t | 0 <= t < |keys| :: keys[t] in almanac
  }

  /** The maps named by the keys, in order. */
  function InOrder(almanac: MapsByName, keys: seq<(string, string)>): (maps: seq<RangeMap>)
    requires AllKnown(almanac, keys)
    ensures |maps| == |keys| && forall t | 0 <= t < |keys| :: maps[t] == almanac[keys[t]]
  {
    if keys == [] then [] else InOrder(almanac, keys[..|keys| - 1]) + [almanac[keys[|keys| - 1]]]
  }
}
