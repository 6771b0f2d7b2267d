/**
 * The memoised driver of 12/12.py: a `memoize` object holding a cache from
 * (chunks, counts) keys to counts, the counter's body calling back through
 * that object, and the per-record and per-report totals of parts one and two.
 */
module SpringsMemo {

  import opened Springs

  /** A memoising wrapper around the arrangement counter. */
  class Memo {
    /** Cached results, keyed by the (chunks, counts) pair the call was made with. */
    var cache: map<(seq<Chunk>, seq<nat>), nat>

    /** Every cached entry is the counter's value at its key. */
    ghost predicate Valid()
      reads this
    {
      forall key | key in cache :: cache[key] == TestCombinations(key.0, key.1)
    }

    /** A fresh wrapper with an empty cache: what `copy()` hands to each record. */
    constructor ()
      ensures Valid() && cache == map[]
    {
      cache := map[];
    }

    /**
     * `__call__`: answer from the cache when the key is there, otherwise run
     * the counter's body and remember its result.
     */
    method Call(chunks: seq<Chunk>, counts: seq<nat>) returns (r: nat)
      requires Valid()
      modifies this
      ensures Valid()
      ensures r == TestCombinations(chunks, counts)
      ensures (chunks, counts) in cache && cache[(chunks, counts)] == r
      ensures forall key | key in old(cache) :: key in cache && cache[key] == old(cache)[key]
      decreases TotalCells(chunks), |chunks|, 1
    {
      var key := (chunks, counts);
      if key in cache {
        r := cache[key];
      } else {
        r := Evaluate(chunks, counts);
        cache := cache[key := r];
      }
    }

    /** The body of test_combinations, recursing through `Call`. */
    method Evaluate(chunks: seq<Chunk>, counts: seq<nat>) returns (r: nat)
      requires Valid()
      modifies this
      ensures Valid()
      ensures r == TestCombinations(chunks, counts)
      ensures forall key | key in old(cache) :: key in cache && cache[key] == old(cache)[key]
      decreases TotalCells(chunks), |chunks|, 0
    {
      if |counts| == 0 {
        r := if AnyWorking(chunks) then 0 else 1;
        return;
      }
      if |chunks| == 0 {
        r := 0;
        return;
      }
      var chunk, count := chunks[0], counts[0];
      TotalCellsCons(chunk, chunks[1..]);
      assert [chunk] + chunks[1..] == chunks;
      r := 0;
      if count < |chunk| {
        var tail := chunk[count..];
        if tail[0] != Working {
          var placed;
          if |tail| > 1 {
            TotalCellsCons(tail[1..], chunks[1..]);
            placed := Call([tail[1..]] + chunks[1..], counts[1..]);
          } else {
            placed := Call(chunks[1..], counts[1..]);
          }
          r := r + placed;
        }
        if chunk[0] != Working && |chunk| > 1 {
          TotalCellsCons(chunk[1..], chunks[1..]);
          var slid := Call([chunk[1..]] + chunks[1..], counts);
          r := r + slid;
        }
        return;
      }
      if count == |chunk| {
        r := Call(chunks[1..], counts[1..]);
        if Working !in chunk {
          var skipped := Call(chunks[1..], counts);
          r := r + skipped;
        }
        return;
      }
      if Working !in chunk {
        r := Call(chunks[1..], counts);
        return;
      }
      r := 0;
    }
  }

  /**
   * count_combinations: chunk the row at its broken springs and count with a
   * fresh cache; for positive groups this is the number of arrangements.
   */
  method CountCombinations(springs: seq<Cell>, groups: seq<nat>) returns (r: nat)
    ensures r == TestCombinations(Chunks(springs), groups)
    ensures Positive(groups) ==> r == Arrangements(springs, groups)
  {
    var memo := new Memo();
    r := memo.Call(Chunks(springs), groups);
    if Positive(groups) {
      CountCombinationsCorrect(springs, groups);
    }
  }

  /** One record of the report: a row of springs and its group sizes. */
  type Record = (seq<Cell>, seq<nat>)

  /** Every record of the report lists positive groups. */
  predicate WellFormed(report: seq<Record>)
  {
    forall i | 0 <= i < |report| :: Positive(report[i].1)
  }

  /** The record as counted: unfolded five-fold in part two, as read in part one. */
  function Counted(record: Record, unfolded: bool): Record
  {
    if unfolded then Unfold(record.0, record.1) else record
  }

  /** Sum of the arrangement counts over the records of a report. */
  ghost function TotalArrangements(report: seq<Record>, unfolded: bool): nat
  {
    if report == [] then 0
    else
      var last := Counted(report[|report| - 1], unfolded);
      TotalArrangements(report[..|report| - 1], unfolded) + Arrangements(last.0, last.1)
  }

  /** Repeating a list of positive groups keeps every group positive. */
  lemma {:induction false} RepeatPositive(groups: seq<nat>, n: nat)
    requires Positive(groups)
    ensures Positive(Repeat(groups, n))
  {
    RepeatLength(groups, n);
    forall i | 0 <= i < |Repeat(groups, n)|
      ensures Repeat(groups, n)[i] > 0
    {
      RepeatAt(groups, n, i);
    }
  }

  /**
   * part_one and part_two: sum the counts of every record, unfolding each
   * record first in part two; with positive groups throughout, the total
   * is the number of arrangements summed over the report.
   */
  method TotalCombinations(report: seq<Record>, unfolded: bool) returns (total: nat)
    ensures WellFormed(report) ==> total == TotalArrangements(report, unfolded)
  {
    total := 0;
    var i := 0;
    while i < |report|
      invariant 0 <= i <= |report|
      invariant WellFormed(report) ==> total == TotalArrangements(report[..i], unfolded)
    {
      var record := Counted(report[i], unfolded);
      var count := CountCombinations(record.0, record.1);
      if WellFormed(report) {
        if unfolded {
          RepeatPositive(report[i].1, 5);
        }
        assert report[..i + 1][..i] == report[..i];
      }
      total := total + count;
      i := i + 1;
    }
    assert report[..i] == report;
  }
}
