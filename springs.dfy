/**
 * Hot springs (12/12.py): a row of springs, each working '#', broken '.' or
 * unknown '?', and a list of group sizes.  The row is cut into chunks at the
 * broken springs and `TestCombinations` counts, by case analysis on the first
 * chunk and the first group, the ways to resolve the unknown springs so that
 * the maximal runs of working springs are exactly the groups, in order.
 *
 * The specification `Arrangements` enumerates every resolution of the unknown
 * springs and counts those whose runs equal the groups; the theorems at the
 * end prove that chunking and counting compute it.
 */
module Springs {

  import Arith

  /** The condition of one spring. */
  datatype Cell = Working | Broken | Unknown

  type Chunk = seq<Cell>

  // ---------------------------------------------------------------------------
  // Chunker
  // ---------------------------------------------------------------------------

  /**
   * The pieces between broken springs, empty pieces included: the semantics of
   * Python's `str.split` with the separator '.'.
   */
  function SplitOnBroken(s: seq<Cell>): (pieces: seq<Chunk>)
    ensures |pieces| >= 1
  {
    if s == [] then [[]]
    else
      var rest := SplitOnBroken(s[1..]);
      if s[0] == Broken then [[]] + rest
      else [[s[0]] + rest[0]] + rest[1..]
  }

  /** Joins pieces with one broken spring between neighbours (the inverse of the split). */
  function JoinWithBroken(pieces: seq<Chunk>): seq<Cell>
    requires |pieces| >= 1
  {
    if |pieces| == 1 then pieces[0]
    else pieces[0] + [Broken] + JoinWithBroken(pieces[1..])
  }

  /** The non-empty pieces, in order. */
  function NonEmpty(pieces: seq<Chunk>): (r: seq<Chunk>)
    ensures forall i | 0 <= i < |r| :: r[i] != [] && r[i] in pieces
    ensures |r| <= |pieces|
  {
    if pieces == [] then []
    else if pieces[0] == [] then NonEmpty(pieces[1..])
    else [pieces[0]] + NonEmpty(pieces[1..])
  }

  /** The chunks of a row: its maximal runs of springs that are not broken. */
  function Chunks(springs: seq<Cell>): seq<Chunk>
  {
    NonEmpty(SplitOnBroken(springs))
  }

  /** All cells of a list of chunks, in order. */
  function Flatten(chunks: seq<Chunk>): seq<Cell>
  {
    if chunks == [] then [] else chunks[0] + Flatten(chunks[1..])
  }

  /** The springs of a row that are not broken, in order. */
  function Unbroken(s: seq<Cell>): (r: seq<Cell>)
    ensures Broken !in r
  {
    if s == [] then []
    else if s[0] == Broken then Unbroken(s[1..])
    else [s[0]] + Unbroken(s[1..])
  }

  lemma {:induction false} SplitPiecesUnbroken(s: seq<Cell>)
    ensures forall i | 0 <= i < |SplitOnBroken(s)| :: Broken !in SplitOnBroken(s)[i]
  {
    if s != [] {
      SplitPiecesUnbroken(s[1..]);
    }
  }

  /** Splitting and joining again gives back the row. */
  lemma {:induction false} SplitJoin(s: seq<Cell>)
    ensures JoinWithBroken(SplitOnBroken(s)) == s
  {
    if s != [] {
      SplitJoin(s[1..]);
      var rest := SplitOnBroken(s[1..]);
      if s[0] == Broken {
        assert ([[]] + rest)[1..] == rest;
        assert s == [] + [Broken] + s[1..];
      } else if |rest| == 1 {
        assert s == [s[0]] + s[1..];
      } else {
        assert ([[s[0]] + rest[0]] + rest[1..])[1..] == rest[1..];
        assert s[1..] == rest[0] + [Broken] + JoinWithBroken(rest[1..]);
        assert s == [s[0]] + s[1..];
      }
    }
  }

  /** Splitting at a broken spring concatenates the pieces of the two sides. */
  lemma {:induction false} SplitConcat(x: seq<Cell>, y: seq<Cell>)
    ensures SplitOnBroken(x + [Broken] + y) == SplitOnBroken(x) + SplitOnBroken(y)
  {
    if x == [] {
      assert ([Broken] + y)[1..] == y;
    } else {
      assert (x + [Broken] + y)[1..] == x[1..] + [Broken] + y;
      SplitConcat(x[1..], y);
    }
  }

  lemma {:induction false} NonEmptyConcat(p: seq<Chunk>, q: seq<Chunk>)
    ensures NonEmpty(p + q) == NonEmpty(p) + NonEmpty(q)
  {
    if p != [] {
      assert (p + q)[1..] == p[1..] + q;
      NonEmptyConcat(p[1..], q);
    } else {
      assert p + q == q;
    }
  }

  lemma {:induction false} FlattenNonEmpty(p: seq<Chunk>)
    ensures Flatten(NonEmpty(p)) == Flatten(p)
  {
    if p != [] {
      FlattenNonEmpty(p[1..]);
      assert Flatten(p) == p[0] + Flatten(p[1..]);
      if p[0] != [] {
        var q := [p[0]] + NonEmpty(p[1..]);
        assert q[1..] == NonEmpty(p[1..]);
        assert Flatten(q) == p[0] + Flatten(NonEmpty(p[1..]));
      } else {
        assert p[0] + Flatten(p[1..]) == Flatten(p[1..]);
      }
    }
  }

  lemma {:induction false} FlattenSplit(s: seq<Cell>)
    ensures Flatten(SplitOnBroken(s)) == Unbroken(s)
  {
    if s != [] {
      FlattenSplit(s[1..]);
      var rest := SplitOnBroken(s[1..]);
      if s[0] == Broken {
        assert ([[]] + rest)[1..] == rest;
      } else {
        var r := [[s[0]] + rest[0]] + rest[1..];
        assert r[1..] == rest[1..];
        assert Flatten(rest) == rest[0] + Flatten(rest[1..]);
      }
    }
  }

  /** Every chunk is non-empty and free of broken springs. */
  lemma {:induction false} ChunksAreUnbroken(s: seq<Cell>)
    ensures forall i | 0 <= i < |Chunks(s)| :: Chunks(s)[i] != [] && Broken !in Chunks(s)[i]
  {
    SplitPiecesUnbroken(s);
  }

  /** The chunks hold exactly the springs that are not broken, in their original order. */
  lemma {:induction false} ChunksKeepOrder(s: seq<Cell>)
    ensures Flatten(Chunks(s)) == Unbroken(s)
  {
    FlattenNonEmpty(SplitOnBroken(s));
    FlattenSplit(s);
  }

  /** A run of several broken springs separates chunks exactly as a single one does. */
  lemma {:induction false} ChunksIgnoreSeparatorLength(x: seq<Cell>, y: seq<Cell>)
    ensures Chunks(x + [Broken, Broken] + y) == Chunks(x + [Broken] + y)
  {
    assert x + [Broken, Broken] + y == x + [Broken] + ([Broken] + y);
    SplitConcat(x, [Broken] + y);
    SplitConcat(x, y);
    assert ([Broken] + y)[1..] == y;
    assert SplitOnBroken([Broken] + y) == [[]] + SplitOnBroken(y);
    NonEmptyConcat(SplitOnBroken(x), [[]] + SplitOnBroken(y));
    NonEmptyConcat(SplitOnBroken(x), SplitOnBroken(y));
    assert ([[]] + SplitOnBroken(y))[1..] == SplitOnBroken(y);
  }

  // ---------------------------------------------------------------------------
  // The arrangement counter
  // ---------------------------------------------------------------------------

  /** Total number of springs across a list of chunks: the first half of the termination measure. */
  function TotalCells(chunks: seq<Chunk>): nat
  {
    if chunks == [] then 0 else |chunks[0]| + TotalCells(chunks[1..])
  }

  lemma {:induction false} TotalCellsCons(c: Chunk, rest: seq<Chunk>)
    ensures TotalCells([c] + rest) == |c| + TotalCells(rest)
  {
    assert ([c] + rest)[1..] == rest;
  }

  /** Some chunk contains a working spring. */
  predicate AnyWorking(chunks: seq<Chunk>)
  {
    exists i | 0 <= i < |chunks| :: Working in chunks[i]
  }

  /**
   * The recursive counter of test_combinations, case by case: no groups left;
   * no chunks left; a group shorter than the first chunk (place it at the start
   * of the chunk, or slide it one spring further); a group filling the chunk
   * exactly (consume both, or skip a chunk without working springs); a group
   * longer than the chunk (skip the chunk if it has no working spring).
   */
  function TestCombinations(chunks: seq<Chunk>, counts: seq<nat>): nat
    decreases TotalCells(chunks), |chunks|
  {
    if |counts| == 0 then
      if AnyWorking(chunks) then 0 else 1
    else if |chunks| == 0 then
      0
    else
      var chunk, count := chunks[0], counts[0];
      if count < |chunk| then
        var tail := chunk[count..];
        var placed :=
          if tail[0] == Working then 0
          else if |tail| > 1 then TestCombinations([tail[1..]] + chunks[1..], counts[1..])
          else TestCombinations(chunks[1..], counts[1..]);
        var slid :=
          if chunk[0] == Working then 0
          else if |chunk| > 1 then TestCombinations([chunk[1..]] + chunks[1..], counts)
          else 0;
        placed + slid
      else if count == |chunk| then
        TestCombinations(chunks[1..], counts[1..])
        + (if Working !in chunk then TestCombinations(chunks[1..], counts) else 0)
      else if Working !in chunk then
        TestCombinations(chunks[1..], counts)
      else
        0
  }

  // ---------------------------------------------------------------------------
  // Unfolding (part two)
  // ---------------------------------------------------------------------------

  function Repeat<T>(s: seq<T>, n: nat): seq<T>
  {
    if n == 0 then [] else s + Repeat(s, n - 1)
  }

  lemma {:induction false} RepeatLength<T>(s: seq<T>, n: nat)
    ensures |Repeat(s, n)| == |s| * n
  {
    if n > 0 {
      RepeatLength(s, n - 1);
    }
  }

  lemma {:induction false} RepeatAt<T>(s: seq<T>, n: nat, i: nat)
    requires s != [] && i < |Repeat(s, n)|
    ensures Repeat(s, n)[i] == s[i % |s|]
  {
    if i < |s| {
      Arith.ModUnique(i, |s|, 0, i);
    } else {
      RepeatAt(s, n - 1, i - |s|);
      Arith.ModUnique(i, |s|, (i - |s|) / |s| + 1, (i - |s|) % |s|);
    }
  }

  /**
   * The unfolded record of part two: five copies of the row joined by an
   * unknown spring, and five copies of the group list.
   */
  function Unfold(springs: seq<Cell>, groups: seq<nat>): (r: (seq<Cell>, seq<nat>))
  {
    (Repeat(springs + [Unknown], 4) + springs, Repeat(groups, 5))
  }

  /**
   * The unfolded row has 5n+4 springs; position i holds an unknown spring at
   * each of the four joins and otherwise the original spring at i mod (n+1);
   * the group list has 5m entries, entry i being group i mod m.
   */
  lemma {:induction false} UnfoldShape(springs: seq<Cell>, groups: seq<nat>)
    ensures var (s, g) := Unfold(springs, groups);
      && |s| == 5 * |springs| + 4
      && |g| == 5 * |groups|
      && (forall i | 0 <= i < |s| ::
            s[i] == if i % (|springs| + 1) == |springs| then Unknown else springs[i % (|springs| + 1)])
      && (forall i | 0 <= i < |g| :: g[i] == groups[i % |groups|])
  {
    var n := |springs|;
    var (s, g) := Unfold(springs, groups);
    var unit := springs + [Unknown];
    RepeatLength(unit, 4);
    RepeatLength(groups, 5);
    forall i | 0 <= i < |s|
      ensures s[i] == if i % (n + 1) == n then Unknown else springs[i % (n + 1)]
    {
      if i < 4 * (n + 1) {
        RepeatAt(unit, 4, i);
      } else {
        assert s[i] == springs[i - 4 * (n + 1)];
        Arith.ModUnique(i, n + 1, 4, i - 4 * (n + 1));
      }
    }
    forall i | 0 <= i < |g|
      ensures g[i] == groups[i % |groups|]
    {
      RepeatAt(groups, 5, i);
    }
  }

  // ---------------------------------------------------------------------------
  // Specification: runs and the enumeration of resolutions
  // ---------------------------------------------------------------------------

  /** Number of working springs at the front of a row. */
  function LeadingWorking(s: seq<Cell>): (k: nat)
    ensures k <= |s|
    ensures forall i | 0 <= i < k :: s[i] == Working
    ensures k < |s| ==> s[k] != Working
  {
    if s != [] && s[0] == Working then 1 + LeadingWorking(s[1..]) else 0
  }

  /** The lengths of the maximal runs of working springs, left to right. */
  function Runs(s: seq<Cell>): seq<nat>
    decreases |s|
  {
    if s == [] then []
    else if s[0] != Working then Runs(s[1..])
    else
      var k := LeadingWorking(s);
      [k] + Runs(s[k..])
  }

  /** A row of `k` working springs. */
  function Ws(k: nat): (s: seq<Cell>)
    ensures |s| == k && forall i | 0 <= i < k :: s[i] == Working
  {
    seq(k, _ => Working)
  }

  /**
   * The number of ways to resolve every unknown spring of `rest` to working or
   * broken such that the runs of `done` followed by the resolved `rest` are
   * exactly `groups`.  `done` is the already resolved prefix.
   */
  ghost function CountFrom(done: seq<Cell>, rest: seq<Cell>, groups: seq<nat>): nat
    decreases |rest|
  {
    if rest == [] then
      if Runs(done) == groups then 1 else 0
    else if rest[0] == Unknown then
      CountFrom(done + [Working], rest[1..], groups) + CountFrom(done + [Broken], rest[1..], groups)
    else
      CountFrom(done + [rest[0]], rest[1..], groups)
  }

  /** The number of resolutions of the unknown springs of a row whose runs are exactly `groups`. */
  ghost function Arrangements(springs: seq<Cell>, groups: seq<nat>): nat
  {
    CountFrom([], springs, groups)
  }

  /** Chunks laid out in a row, each one followed by a single broken spring. */
  function Lay(chunks: seq<Chunk>): seq<Cell>
  {
    if chunks == [] then [] else chunks[0] + [Broken] + Lay(chunks[1..])
  }

  predicate Positive(groups: seq<nat>)
  {
    forall i | 0 <= i < |groups| :: groups[i] > 0
  }

  predicate AllUnbroken(chunks: seq<Chunk>)
  {
    forall i | 0 <= i < |chunks| :: Broken !in chunks[i]
  }

  // ---------------------------------------------------------------------------
  // Facts about runs
  // ---------------------------------------------------------------------------

  lemma {:induction false} LeadingWorkingAppend(y: seq<Cell>, t: seq<Cell>)
    ensures LeadingWorking(y + t) ==
      if LeadingWorking(y) < |y| then LeadingWorking(y) else |y| + LeadingWorking(t)
  {
    if y != [] {
      assert (y + t)[1..] == y[1..] + t;
      if y[0] == Working {
        LeadingWorkingAppend(y[1..], t);
      }
    } else {
      assert y + t == t;
    }
  }

  /** A broken spring separates runs: the runs on either side are simply concatenated. */
  lemma {:induction false} RunsSplit(y: seq<Cell>, z: seq<Cell>)
    ensures Runs(y + [Broken] + z) == Runs(y) + Runs(z)
    decreases |y|
  {
    var s := y + [Broken] + z;
    if y == [] {
      assert s[1..] == z;
      assert Runs(s) == Runs(z);
    } else if y[0] != Working {
      assert s[1..] == y[1..] + [Broken] + z;
      RunsSplit(y[1..], z);
      assert Runs(s) == Runs(s[1..]);
    } else {
      var k := LeadingWorking(y);
      if k < |y| {
        RunsSplit(y[k..], z);
      }
      RunsSplitWorking(y, z);
    }
  }

  /** The step of RunsSplit when y starts with its first run, given the split for what follows that run. */
  lemma {:induction false} RunsSplitWorking(y: seq<Cell>, z: seq<Cell>)
    requires y != [] && y[0] == Working
    requires LeadingWorking(y) < |y| ==>
      Runs(y[LeadingWorking(y)..] + [Broken] + z) == Runs(y[LeadingWorking(y)..]) + Runs(z)
    ensures Runs(y + [Broken] + z) == Runs(y) + Runs(z)
  {
    var s := y + [Broken] + z;
    var k := LeadingWorking(y);
    var t := [Broken] + z;
    assert s == y + t;
    assert LeadingWorking(t) == 0;
    LeadingWorkingAppend(y, t);
    assert LeadingWorking(s) == k;
    assert s[0] == Working;
    assert Runs(s) == [k] + Runs(s[k..]);
    assert Runs(y) == [k] + Runs(y[k..]);
    if k == |y| {
      assert s[k..] == [Broken] + z;
      assert ([Broken] + z)[1..] == z;
      assert Runs(s[k..]) == Runs(z);
      assert y[k..] == [];
      assert Runs(y) == [k];
    } else {
      assert s[k..] == y[k..] + [Broken] + z;
      assert Runs(s[k..]) == Runs(y[k..]) + Runs(z);
    }
  }

  lemma {:induction false} RunsBroken(z: seq<Cell>)
    ensures Runs([Broken] + z) == Runs(z)
  {
    RunsSplit([], z);
  }

  lemma {:induction false} RunsTrailingBroken(y: seq<Cell>)
    ensures Runs(y + [Broken]) == Runs(y)
  {
    RunsSplit(y, []);
    assert y + [Broken] + [] == y + [Broken];
  }

  /** A block of k >= 1 working springs followed by x starts with a run of at least k. */
  lemma {:induction false} RunsAfterWorking(k: nat, x: seq<Cell>)
    requires k >= 1
    ensures Runs(Ws(k) + x) != [] && Runs(Ws(k) + x)[0] >= k
  {
    LeadingWorkingAppend(Ws(k), x);
  }

  /** A closed block of n >= 1 working springs is one run of length n. */
  lemma {:induction false} RunsClosedBlock(n: nat, x: seq<Cell>)
    requires n >= 1
    ensures Runs(Ws(n) + [Broken] + x) == [n] + Runs(x)
  {
    RunsSplit(Ws(n), x);
    LeadingWorkingAppend(Ws(n), []);
    assert Ws(n) + [] == Ws(n);
    assert Ws(n)[n..] == [];
  }

  /** A row has no runs exactly when it has no working spring. */
  lemma {:induction false} RunsEmpty(s: seq<Cell>)
    ensures Runs(s) == [] <==> Working !in s
    decreases |s|
  {
    if s != [] && s[0] != Working {
      RunsEmpty(s[1..]);
      assert s == [s[0]] + s[1..];
    }
  }

  // ---------------------------------------------------------------------------
  // Facts about the enumeration
  // ---------------------------------------------------------------------------

  /** Two resolved prefixes that accept exactly the same continuations. */
  ghost predicate SameFate(d1: seq<Cell>, g1: seq<nat>, d2: seq<Cell>, g2: seq<nat>)
  {
    forall x: seq<Cell> :: Runs(d1 + x) == g1 <==> Runs(d2 + x) == g2
  }

  /** A resolved prefix no continuation can complete. */
  ghost predicate Doomed(d: seq<Cell>, g: seq<nat>)
  {
    forall x: seq<Cell> :: Runs(d + x) != g
  }

  lemma {:induction false} CountFromCongruent(
    d1: seq<Cell>, g1: seq<nat>, d2: seq<Cell>, g2: seq<nat>, rest: seq<Cell>)
    requires SameFate(d1, g1, d2, g2)
    ensures CountFrom(d1, rest, g1) == CountFrom(d2, rest, g2)
    decreases |rest|
  {
    if rest == [] {
      assert d1 + [] == d1 && d2 + [] == d2;
    } else {
      forall c: Cell
        ensures SameFate(d1 + [c], g1, d2 + [c], g2)
      {
        forall x: seq<Cell>
          ensures Runs(d1 + [c] + x) == g1 <==> Runs(d2 + [c] + x) == g2
        {
          assert d1 + [c] + x == d1 + ([c] + x);
          assert d2 + [c] + x == d2 + ([c] + x);
        }
      }
      if rest[0] == Unknown {
        CountFromCongruent(d1 + [Working], g1, d2 + [Working], g2, rest[1..]);
        CountFromCongruent(d1 + [Broken], g1, d2 + [Broken], g2, rest[1..]);
      } else {
        CountFromCongruent(d1 + [rest[0]], g1, d2 + [rest[0]], g2, rest[1..]);
      }
    }
  }

  lemma {:induction false} CountFromDoomed(d: seq<Cell>, g: seq<nat>, rest: seq<Cell>)
    requires Doomed(d, g)
    ensures CountFrom(d, rest, g) == 0
    decreases |rest|
  {
    if rest == [] {
      assert d + [] == d;
    } else {
      forall c: Cell
        ensures Doomed(d + [c], g)
      {
        forall x: seq<Cell>
          ensures Runs(d + [c] + x) != g
        {
          assert d + [c] + x == d + ([c] + x);
        }
      }
      if rest[0] == Unknown {
        CountFromDoomed(d + [Working], g, rest[1..]);
        CountFromDoomed(d + [Broken], g, rest[1..]);
      } else {
        CountFromDoomed(d + [rest[0]], g, rest[1..]);
      }
    }
  }

  /** A leading broken spring changes nothing. */
  lemma {:induction false} ArrangementsBroken(t: seq<Cell>, g: seq<nat>)
    ensures Arrangements([Broken] + t, g) == Arrangements(t, g)
  {
    assert ([Broken] + t)[1..] == t;
    assert [] + [Broken] == [Broken];
    forall x: seq<Cell>
      ensures Runs([Broken] + x) == g <==> Runs([] + x) == g
    {
      RunsBroken(x);
      assert [] + x == x;
    }
    CountFromCongruent([Broken], g, [], g, t);
  }

  /** With no groups left, there is one arrangement if no spring is forced working, else none. */
  lemma {:induction false} CountFromNoGroups(d: seq<Cell>, rest: seq<Cell>)
    ensures CountFrom(d, rest, []) == if Working in d + rest then 0 else 1
    decreases |rest|
  {
    if rest == [] {
      RunsEmpty(d);
      assert d + [] == d;
    } else {
      assert rest == [rest[0]] + rest[1..];
      if rest[0] == Unknown {
        CountFromNoGroups(d + [Working], rest[1..]);
        CountFromNoGroups(d + [Broken], rest[1..]);
        assert Working in d + [Working] + rest[1..];
        assert (Working in d + [Broken] + rest[1..]) == (Working in d + rest);
      } else {
        CountFromNoGroups(d + [rest[0]], rest[1..]);
        assert d + [rest[0]] + rest[1..] == d + rest;
      }
    }
  }

  /**
   * An open run of k working springs, continued by a chunk `c` without broken
   * springs and then a broken spring: the run must grow to exactly the first
   * group n and be closed right after, or nothing fits.
   */
  lemma {:induction false} FillGroup(k: nat, c: Chunk, t: seq<Cell>, g: seq<nat>)
    requires g != [] && 1 <= k <= g[0]
    requires Broken !in c
    ensures var n := g[0];
      CountFrom(Ws(k), c + [Broken] + t, g) ==
        if k + |c| < n then 0
        else if k + |c| == n then Arrangements(t, g[1..])
        else if c[n - k] == Working then 0
        else Arrangements(c[n - k + 1..] + [Broken] + t, g[1..])
    decreases |c|
  {
    var n := g[0];
    var s := c + [Broken] + t;
    if c == [] {
      assert s == [Broken] + t && s[1..] == t;
      if k == n {
        CloseRun(g, t);
      } else {
        ShortRun(k, g, t);
      }
    } else {
      assert s[1..] == c[1..] + [Broken] + t;
      assert Ws(k) + [Working] == Ws(k + 1);
      if k == n {
        // The run is complete: the next spring must be broken.
        LongRun(g, c[1..] + [Broken] + t);
        if c[0] == Unknown {
          CloseRun(g, c[1..] + [Broken] + t);
        }
      } else {
        // The run is still too short: the next spring must be working.
        FillGroup(k + 1, c[1..], t, g);
        if c[0] == Unknown {
          ShortRun(k, g, c[1..] + [Broken] + t);
        }
        if k + |c| > n {
          assert c[1..][n - (k + 1)] == c[n - k];
          assert c[1..][n - (k + 1) + 1..] == c[n - k + 1..];
        }
      }
    }
  }

  /** A run of exactly the first group's size, closed by a broken spring, leaves the other groups to the rest. */
  lemma {:induction false} CloseRun(g: seq<nat>, rest: seq<Cell>)
    requires g != [] && g[0] >= 1
    ensures CountFrom(Ws(g[0]) + [Broken], rest, g) == Arrangements(rest, g[1..])
  {
    var n := g[0];
    forall x: seq<Cell>
      ensures Runs(Ws(n) + [Broken] + x) == g <==> Runs([] + x) == g[1..]
    {
      RunsClosedBlock(n, x);
      assert [] + x == x;
      assert g == [g[0]] + g[1..];
    }
    CountFromCongruent(Ws(n) + [Broken], g, [], g[1..], rest);
  }

  /** A run shorter than the first group, closed by a broken spring, leaves no arrangement. */
  lemma {:induction false} ShortRun(k: nat, g: seq<nat>, rest: seq<Cell>)
    requires g != [] && 1 <= k < g[0]
    ensures CountFrom(Ws(k) + [Broken], rest, g) == 0
  {
    forall x: seq<Cell>
      ensures Runs(Ws(k) + [Broken] + x) != g
    {
      RunsClosedBlock(k, x);
    }
    CountFromDoomed(Ws(k) + [Broken], g, rest);
  }

  /** A run longer than the first group leaves no arrangement. */
  lemma {:induction false} LongRun(g: seq<nat>, rest: seq<Cell>)
    requires g != []
    ensures CountFrom(Ws(g[0] + 1), rest, g) == 0
  {
    var longer := Ws(g[0] + 1);
    forall x: seq<Cell>
      ensures Runs(longer + x) != g
    {
      RunsAfterWorking(g[0] + 1, x);
    }
    CountFromDoomed(longer, g, rest);
  }

  /** The first spring of a chunk: forced working, or unknown and tried both ways. */
  lemma {:induction false} FirstCell(c: Chunk, t: seq<Cell>, g: seq<nat>)
    requires c != [] && c[0] != Broken
    ensures Arrangements(c + [Broken] + t, g) ==
      CountFrom(Ws(1), c[1..] + [Broken] + t, g)
      + (if c[0] == Unknown then Arrangements(c[1..] + [Broken] + t, g) else 0)
  {
    var s := c + [Broken] + t;
    assert s[1..] == c[1..] + [Broken] + t;
    assert [] + [Working] == Ws(1);
    if c[0] == Unknown {
      ArrangementsBroken(s[1..], g);
      assert ([Broken] + s[1..])[1..] == s[1..];
      assert [] + [Broken] == [Broken];
    }
  }

  /** A chunk shorter than the next group can only be skipped, and only if it has no working spring. */
  lemma {:induction false} ShortChunk(c: Chunk, t: seq<Cell>, g: seq<nat>)
    requires g != [] && |c| < g[0] && Broken !in c
    ensures Arrangements(c + [Broken] + t, g) == if Working in c then 0 else Arrangements(t, g)
    decreases |c|
  {
    if c == [] {
      assert c + [Broken] + t == [Broken] + t;
      ArrangementsBroken(t, g);
    } else {
      FirstCell(c, t, g);
      FillGroup(1, c[1..], t, g);
      assert c == [c[0]] + c[1..];
      if c[0] == Unknown {
        ShortChunk(c[1..], t, g);
      }
    }
  }

  lemma {:induction false} LayWorking(cs: seq<Chunk>)
    ensures Working in Lay(cs) <==> AnyWorking(cs)
  {
    if cs != [] {
      LayWorking(cs[1..]);
      if AnyWorking(cs[1..]) {
        var i :| 0 <= i < |cs[1..]| && Working in cs[1..][i];
        assert Working in cs[i + 1];
      }
      if AnyWorking(cs) {
        var i :| 0 <= i < |cs| && Working in cs[i];
        if i > 0 {
          assert Working in cs[1..][i - 1];
        }
      }
      if Working in cs[0] {
        assert Working in cs[0];
      }
    }
  }

  /**
   * The arrangement counter is correct: for chunks without broken springs and
   * positive groups, TestCombinations is the number of resolutions of the
   * chunks (laid out with one broken spring after each) whose runs are exactly
   * the groups.
   */
  lemma {:induction false} TestCombinationsCounts(chunks: seq<Chunk>, counts: seq<nat>)
    requires AllUnbroken(chunks) && Positive(counts)
    ensures TestCombinations(chunks, counts) == Arrangements(Lay(chunks), counts)
    decreases TotalCells(chunks), |chunks|
  {
    if |counts| == 0 {
      NoGroupsLeft(chunks, counts);
    } else if |chunks| > 0 {
      var c, n := chunks[0], counts[0];
      var rest := chunks[1..];
      TailsKeep(chunks, counts);
      TestCombinationsCounts(rest, counts[1..]);
      TestCombinationsCounts(rest, counts);
      if n < |c| {
        if c[n] != Working && |c[n..]| > 1 {
          ChunkListCons(c[n + 1..], rest);
          TotalCellsCons(c[n + 1..], rest);
          TestCombinationsCounts([c[n + 1..]] + rest, counts[1..]);
        }
        if c[0] != Working {
          ChunkListCons(c[1..], rest);
          TotalCellsCons(c[1..], rest);
          TestCombinationsCounts([c[1..]] + rest, counts);
        }
        LongChunk(chunks, counts);
      } else {
        ShortOrFitChunk(chunks, counts);
      }
    }
  }

  /** With no groups left the counter finds one arrangement exactly when no spring is forced working. */
  lemma {:induction false} NoGroupsLeft(chunks: seq<Chunk>, counts: seq<nat>)
    requires |counts| == 0
    ensures TestCombinations(chunks, counts) == Arrangements(Lay(chunks), counts)
  {
    CountFromNoGroups([], Lay(chunks));
    LayWorking(chunks);
    assert [] + Lay(chunks) == Lay(chunks);
    assert counts == [];
  }

  /**
   * The step of the counter for a first chunk no longer than the first group:
   * given the counts for the rest of the chunks, the count for the whole.
   */
  lemma {:induction false} ShortOrFitChunk(chunks: seq<Chunk>, counts: seq<nat>)
    requires AllUnbroken(chunks) && Positive(counts) && chunks != [] && counts != [] && counts[0] >= |chunks[0]|
    requires TestCombinations(chunks[1..], counts[1..]) == Arrangements(Lay(chunks[1..]), counts[1..])
    requires TestCombinations(chunks[1..], counts) == Arrangements(Lay(chunks[1..]), counts)
    ensures TestCombinations(chunks, counts) == Arrangements(Lay(chunks), counts)
  {
    var c, n := chunks[0], counts[0];
    var j := Lay(chunks[1..]);
    assert Lay(chunks) == c + [Broken] + j;
    assert Broken !in c;
    if n == |c| {
      FirstCell(c, j, counts);
      FillGroup(1, c[1..], j, counts);
      assert c == [c[0]] + c[1..];
      if c[0] == Unknown {
        ShortChunk(c[1..], j, counts);
      }
    } else {
      ShortChunk(c, j, counts);
    }
  }

  /**
   * The step of the counter for a first chunk longer than the first group:
   * given the counts for the shorter problems, the count for the whole one.
   */
  lemma {:induction false} LongChunk(chunks: seq<Chunk>, counts: seq<nat>)
    requires AllUnbroken(chunks) && Positive(counts) && chunks != [] && counts != [] && counts[0] < |chunks[0]|
    requires TestCombinations(chunks[1..], counts[1..]) == Arrangements(Lay(chunks[1..]), counts[1..])
    requires var c, n := chunks[0], counts[0];
      c[n] != Working && |c[n..]| > 1 ==>
        TestCombinations([c[n + 1..]] + chunks[1..], counts[1..]) == Arrangements(Lay([c[n + 1..]] + chunks[1..]), counts[1..])
    requires chunks[0][0] != Working ==>
      TestCombinations([chunks[0][1..]] + chunks[1..], counts) == Arrangements(Lay([chunks[0][1..]] + chunks[1..]), counts)
    ensures TestCombinations(chunks, counts) == Arrangements(Lay(chunks), counts)
  {
    var c, n := chunks[0], counts[0];
    var rest := chunks[1..];
    var j := Lay(rest);
    assert Lay(chunks) == c + [Broken] + j;
    assert Broken !in c;
    FirstCell(c, j, counts);
    FillGroup(1, c[1..], j, counts);
    assert c[1..][n - 1] == c[n];
    assert c[1..][n - 1 + 1..] == c[n + 1..];
    if c[n] != Working {
      var after := c[n + 1..];
      if |c[n..]| > 1 {
        assert after == c[n..][1..];
        ChunkListCons(after, rest);
      } else {
        assert after == [];
        assert after + [Broken] + j == [Broken] + j;
        ArrangementsBroken(j, counts[1..]);
      }
    }
    if c[0] != Working {
      ChunkListCons(c[1..], rest);
    }
  }

  /** Dropping the first chunk and the first group keeps the chunks broken-free and the groups positive. */
  lemma {:induction false} TailsKeep(chunks: seq<Chunk>, counts: seq<nat>)
    requires AllUnbroken(chunks) && Positive(counts) && chunks != [] && counts != []
    ensures AllUnbroken(chunks[1..]) && Positive(counts[1..])
  {
    var rest := chunks[1..];
    forall i | 0 <= i < |rest| ensures Broken !in rest[i] {
      assert rest[i] == chunks[i + 1];
    }
    forall i | 0 <= i < |counts[1..]| ensures counts[1..][i] > 0 {
      assert counts[1..][i] == counts[i + 1];
    }
  }

  /** Putting a broken-free chunk in front of a broken-free chunk list. */
  lemma {:induction false} ChunkListCons(c: Chunk, rest: seq<Chunk>)
    requires Broken !in c && AllUnbroken(rest)
    ensures AllUnbroken([c] + rest) && Lay([c] + rest) == c + [Broken] + Lay(rest)
  {
    assert ([c] + rest)[1..] == rest;
    forall i | 0 <= i < |[c] + rest| ensures Broken !in ([c] + rest)[i] {
      if i > 0 {
        assert ([c] + rest)[i] == rest[i - 1];
      }
    }
  }

  // ---------------------------------------------------------------------------
  // From the row to its chunks
  // ---------------------------------------------------------------------------

  /** A resolved prefix that is empty or ends between runs. */
  ghost predicate Closed(d: seq<Cell>)
  {
    d == [] || d[|d| - 1] == Broken
  }

  /** After a closed prefix, another broken spring changes nothing. */
  lemma {:induction false} ClosedAbsorbsBroken(d: seq<Cell>, g: seq<nat>)
    requires Closed(d)
    ensures SameFate(d + [Broken], g, d, g)
  {
    forall x: seq<Cell>
      ensures Runs(d + [Broken] + x) == g <==> Runs(d + x) == g
    {
      if d == [] {
        RunsBroken(x);
        assert d + [Broken] + x == [Broken] + x;
        assert d + x == x;
      } else {
        var e := d[..|d| - 1];
        assert d == e + [Broken];
        RunsSplit(e, [Broken] + x);
        RunsSplit(e, x);
        RunsBroken(x);
        assert d + [Broken] + x == e + [Broken] + ([Broken] + x);
        assert d + x == e + [Broken] + x;
      }
    }
  }

  /** The first piece of a row, then a broken spring, then the later chunks. */
  function Reassembled(s: seq<Cell>): seq<Cell>
  {
    var pieces := SplitOnBroken(s);
    pieces[0] + [Broken] + Lay(NonEmpty(pieces[1..]))
  }

  lemma {:induction false} CountFromReassembled(s: seq<Cell>, d: seq<Cell>, g: seq<nat>)
    ensures CountFrom(d, s, g) == CountFrom(d, Reassembled(s), g)
    decreases |s|, 0
  {
    var r := Reassembled(s);
    if s == [] {
      assert r == [Broken];
      assert d + [Broken] == d + [Broken] + [];
      RunsTrailingBroken(d);
    } else {
      var rest := SplitOnBroken(s[1..]);
      if s[0] == Broken {
        assert SplitOnBroken(s)[1..] == rest;
        assert r == [Broken] + Lay(Chunks(s[1..]));
        assert r[1..] == Lay(Chunks(s[1..]));
        CountFromChunked(s[1..], d + [Broken], g);
      } else {
        assert SplitOnBroken(s)[1..] == rest[1..];
        assert r == [s[0]] + Reassembled(s[1..]);
        assert r[1..] == Reassembled(s[1..]);
        if s[0] == Unknown {
          CountFromReassembled(s[1..], d + [Working], g);
          CountFromReassembled(s[1..], d + [Broken], g);
        } else {
          CountFromReassembled(s[1..], d + [s[0]], g);
        }
      }
    }
  }

  lemma {:induction false} CountFromChunked(t: seq<Cell>, d: seq<Cell>, g: seq<nat>)
    requires Closed(d)
    ensures CountFrom(d, t, g) == CountFrom(d, Lay(Chunks(t)), g)
    decreases |t|, 1
  {
    var pieces := SplitOnBroken(t);
    if pieces[0] != [] {
      assert Lay(Chunks(t)) == Reassembled(t);
      CountFromReassembled(t, d, g);
    } else if t != [] {
      assert t[0] == Broken;
      assert Chunks(t) == Chunks(t[1..]);
      ClosedAbsorbsBroken(d, g);
      CountFromCongruent(d + [Broken], g, d, g, t[1..]);
      CountFromChunked(t[1..], d, g);
    }
  }

  /** Counting on the row is counting on its chunks laid out with single separators. */
  lemma {:induction false} ArrangementsOfChunks(springs: seq<Cell>, groups: seq<nat>)
    ensures Arrangements(springs, groups) == Arrangements(Lay(Chunks(springs)), groups)
  {
    CountFromChunked(springs, [], groups);
  }

  /**
   * count_combinations is correct: for positive groups, chunking the row and
   * counting gives the number of resolutions of the row whose runs are the groups.
   */
  lemma {:induction false} CountCombinationsCorrect(springs: seq<Cell>, groups: seq<nat>)
    requires Positive(groups)
    ensures TestCombinations(Chunks(springs), groups) == Arrangements(springs, groups)
  {
    ChunksAreUnbroken(springs);
    TestCombinationsCounts(Chunks(springs), groups);
    ArrangementsOfChunks(springs, groups);
  }

  // ---------------------------------------------------------------------------
  // Consequences
  // ---------------------------------------------------------------------------

  /** Number of unknown springs in a row. */
  function Unknowns(s: seq<Cell>): nat
  {
    if s == [] then 0 else (if s[0] == Unknown then 1 else 0) + Unknowns(s[1..])
  }

  lemma {:induction false} CountFromResolved(d: seq<Cell>, rest: seq<Cell>, g: seq<nat>)
    requires Unknown !in rest
    ensures CountFrom(d, rest, g) == if Runs(d + rest) == g then 1 else 0
    decreases |rest|
  {
    if rest == [] {
      assert d + rest == d;
    } else {
      CountFromResolved(d + [rest[0]], rest[1..], g);
      assert d + [rest[0]] + rest[1..] == d + rest;
    }
  }

  /** A row without unknown springs has one arrangement if its runs are the groups, else none. */
  lemma {:induction false} ArrangementsResolved(springs: seq<Cell>, groups: seq<nat>)
    requires Unknown !in springs
    ensures Arrangements(springs, groups) == if Runs(springs) == groups then 1 else 0
  {
    CountFromResolved([], springs, groups);
    assert [] + springs == springs;
  }

  lemma {:induction false} CountFromBound(d: seq<Cell>, rest: seq<Cell>, g: seq<nat>)
    ensures CountFrom(d, rest, g) <= Arith.Pow2(Unknowns(rest))
    decreases |rest|
  {
    if rest != [] {
      if rest[0] == Unknown {
        CountFromBound(d + [Working], rest[1..], g);
        CountFromBound(d + [Broken], rest[1..], g);
      } else {
        CountFromBound(d + [rest[0]], rest[1..], g);
      }
    }
  }

  /** A row with k unknown springs has at most 2^k arrangements. */
  lemma {:induction false} ArrangementsBound(springs: seq<Cell>, groups: seq<nat>)
    ensures Arrangements(springs, groups) <= Arith.Pow2(Unknowns(springs))
  {
    CountFromBound([], springs, groups);
  }
}

/** The worked examples of the puzzle statement, and the facts they rest on. */
module SpringsExamples {
  import opened Springs

  function AllUnknown(k: nat): Chunk
  {
    seq(k, _ => Unknown)
  }

  lemma {:induction false} SplitWithoutBroken(s: seq<Cell>)
    requires Broken !in s
    ensures SplitOnBroken(s) == [s]
  {
    if s != [] {
      SplitWithoutBroken(s[1..]);
      assert s == [s[0]] + s[1..];
    }
  }

  /** A chunk of k unknown springs holds a single group of 1 in k ways. */
  lemma {:induction false} UnknownOneGroup(k: nat)
    requires k >= 1
    ensures TestCombinations([AllUnknown(k)], [1]) == k
  {
    UnknownSingle(k, [1]);
  }

  /** UnknownOneGroup, for a group list the prover does not see as a literal. */
  lemma {:induction false} UnknownSingle(k: nat, one: seq<nat>)
    requires k >= 1 && one == [1]
    ensures TestCombinations([AllUnknown(k)], one) == k
  {
    var c := AllUnknown(k);
    var none: seq<Chunk> := [];
    assert [c][1..] == none && one[1..] == [];
    if k == 1 {
      assert Working !in c;
    } else {
      var rest := AllUnknown(k - 1);
      assert c[1..] == rest && c[0] == Unknown && rest[0] == Unknown;
      UnknownSingle(k - 1, one);
      assert [rest] + none == [rest];
      if k > 2 {
        assert [rest[1..]] + none == [rest[1..]];
        assert Working !in rest[1..];
        assert !AnyWorking([rest[1..]]);
      }
    }
  }

  /** Ways to place groups 2,1 in k unknown springs: 0, 0, 0, 0, 1, 3, 6, 10, ... */
  function TwoOnePlacements(k: nat): nat
  {
    if k <= 3 then 0 else TwoOnePlacements(k - 1) + (k - 3)
  }

  /** A chunk of k unknown springs holds groups 2,1 in TwoOnePlacements(k) ways. */
  lemma {:induction false} UnknownTwoOne(k: nat)
    requires 2 <= k
    ensures TestCombinations([AllUnknown(k)], [2, 1]) == TwoOnePlacements(k)
  {
    var c := AllUnknown(k);
    var none: seq<Chunk> := [];
    assert [c][1..] == none;
    assert [2, 1][1..] == [1];
    if k > 2 {
      assert c[1..] == AllUnknown(k - 1);
      UnknownTwoOne(k - 1);
      assert [c[1..]] + none == [AllUnknown(k - 1)];
      if k > 3 {
        assert c[2..][1..] == AllUnknown(k - 3);
        UnknownOneGroup(k - 3);
        assert [AllUnknown(k - 3)] + none == [AllUnknown(k - 3)];
      }
    }
  }

  /** `???.###` with groups 1,1,3 has one arrangement. */
  lemma {:induction false} Example1()
    ensures TestCombinations(Chunks([Unknown, Unknown, Unknown, Broken, Working, Working, Working]), [1, 1, 3]) == 1
  {
    ThreeUnknownsThenHashes([Unknown, Unknown, Unknown, Broken, Working, Working, Working], [1, 1, 3]);
  }

  /** Example1, for a row and groups the prover does not see as literals. */
  lemma {:induction false} ThreeUnknownsThenHashes(row: seq<Cell>, g: seq<nat>)
    requires row == [Unknown, Unknown, Unknown, Broken, Working, Working, Working] && g == [1, 1, 3]
    ensures TestCombinations(Chunks(row), g) == 1
  {
    ChunksOfExample1(row);
    CountExample1(AllUnknown(3), Ws(3), g);
  }

  /** `???.###` splits into the chunk `???` and the chunk `###`. */
  lemma {:induction false} ChunksOfExample1(row: seq<Cell>)
    requires row == [Unknown, Unknown, Unknown, Broken, Working, Working, Working]
    ensures Chunks(row) == [AllUnknown(3), Ws(3)]
  {
    var a, b := AllUnknown(3), Ws(3);
    var none: seq<Chunk> := [];
    assert row == a + [Broken] + b;
    SplitConcat(a, b);
    SplitWithoutBroken(a);
    SplitWithoutBroken(b);
    assert [a] + [b] == [a, b] && [a, b][1..] == [b] && [b][1..] == none;
    assert |a| == 3 && |b| == 3;
    assert SplitOnBroken(row) == [a, b];
    assert NonEmpty([b]) == [b] + NonEmpty(none);
    assert NonEmpty([a, b]) == [a] + NonEmpty([b]);
  }

  /** The chunks `???` and `###` hold the groups 1,1,3 one way, counted case by case. */
  lemma {:induction false} CountExample1(a: Chunk, b: Chunk, g: seq<nat>)
    requires a == AllUnknown(3) && b == Ws(3) && g == [1, 1, 3]
    ensures TestCombinations([a, b], g) == 1
  {
    var u1, u2 := AllUnknown(1), AllUnknown(2);
    var none: seq<Chunk> := [];
    var g1 := g[1..];
    var g2 := g1[1..];
    assert g2[1..] == [];
    assert a[1..] == u2 && u2[1..] == u1 && a[1..][1..] == u1 && b[1..] == [Working, Working];
    assert [u1, b][1..] == [b] && [u2, b][1..] == [b] && [b][1..] == none && [a, b][1..] == [b];
    assert [u1] + [b] == [u1, b] && [u2] + [b] == [u2, b];
    assert TestCombinations([b], g2) == 1 by {
      assert TestCombinations(none, []) == 1;
    }
    assert TestCombinations([b], g1) == 0;
    assert TestCombinations([b], g) == 0;
    assert TestCombinations([u1, b], g1) == 1;
    assert TestCombinations([u1, b], g) == 0;
    assert TestCombinations([u2, b], g) == 0;
  }

  /** The row `?###` followed by eight unknown springs, with groups 3,2,1. */
  lemma {:induction false} HashesThenUnknowns(c: Chunk)
    requires c == [Unknown] + Ws(3) + AllUnknown(8)
    ensures TestCombinations(Chunks(c), [3, 2, 1]) == 10
  {
    var none: seq<Chunk> := [];
    SplitWithoutBroken(c);
    assert Chunks(c) == [c];
    assert [c][1..] == none;
    assert [c[1..]] + none == [c[1..]];
    assert c[3] == Working;
    assert TestCombinations([c], [3, 2, 1]) == TestCombinations([c[1..]], [3, 2, 1]);
    var d := c[1..];
    assert [d][1..] == none;
    assert d[0] == Working && d[3] == Unknown;
    assert d[3..][1..] == AllUnknown(7);
    assert [3, 2, 1][1..] == [2, 1];
    assert [AllUnknown(7)] + none == [AllUnknown(7)];
    assert TestCombinations([d], [3, 2, 1]) == TestCombinations([AllUnknown(7)], [2, 1]);
    UnknownTwoOne(7);
    assert TwoOnePlacements(7) == 10;
  }

  /** `?###????????` with groups 3,2,1 has ten arrangements. */
  lemma {:induction false} Example2()
    ensures TestCombinations(Chunks([Unknown, Working, Working, Working, Unknown, Unknown, Unknown, Unknown, Unknown, Unknown, Unknown, Unknown]), [3, 2, 1]) == 10
  {
    HashesThenUnknowns([Unknown, Working, Working, Working, Unknown, Unknown, Unknown, Unknown, Unknown, Unknown, Unknown, Unknown]);
  }
}
