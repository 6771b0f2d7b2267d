/**
 * Scratchcards (04/04.py).  A card lists winning numbers and the numbers you
 * have; its matches are the numbers in both.  Part one scores a card 0 with
 * no match and 2^(m-1) with m matches.  In part two a card with m matches
 * wins one more copy of each of the next m cards for every copy of it held;
 * a `CopyTracker` keeps the pending copy counts of the cards ahead, and the
 * answer is the number of cards held in the end.
 */
module Scratchcards {

  import Arith

  datatype Card = Card(number: int, winning: set<int>, have: set<int>)

  /** The numbers two sets share are no more than either set holds. */
  lemma {:induction false} SharedSize(a: set<int>, b: set<int>)
    ensures |a * b| <= |a|
  {
    var shared, own := a * b, a - b;
    assert a == shared + own;
    assert shared * own == {};
  }

  /** matches: how many of the numbers you have are winning numbers. */
  function Matches(card: Card): (m: nat)
    ensures m <= |card.winning| && m <= |card.have|
  {
    SharedSize(card.winning, card.have);
    SharedSize(card.have, card.winning);
    assert card.have * card.winning == card.winning * card.have;
    |card.winning * card.have|
  }

  /** The score of a card with m matches: none scores 0, the first scores 1 and each further one doubles it. */
  function ScoreOf(m: nat): nat
  {
    if m == 0 then 0 else Arith.Pow2(m - 1)
  }

  /** score */
  function Score(card: Card): nat
  {
    ScoreOf(Matches(card))
  }

  /** 2^k grows at least as fast as k + 1. */
  lemma {:induction false} Pow2AtLeast(k: nat)
    ensures Arith.Pow2(k) >= k + 1
  {
    if k > 0 {
      Pow2AtLeast(k - 1);
    }
  }

  /** 2^k never shrinks as k grows. */
  lemma {:induction false} Pow2Monotone(j: nat, k: nat)
    requires j <= k
    ensures Arith.Pow2(j) <= Arith.Pow2(k)
    decreases k
  {
    if j < k {
      Pow2Monotone(j, k - 1);
    }
  }

  /**
   * A card scores nothing exactly when it has no match; otherwise each match
   * after the first doubles the score, so the score is at least the number of
   * matches and at most 2^(|winning| - 1).
   */
  lemma {:induction false} ScoreSpec(card: Card)
    ensures Score(card) == 0 <==> card.winning * card.have == {}
    ensures Matches(card) <= Score(card)
    ensures Matches(card) >= 1 ==> ScoreOf(Matches(card) + 1) == 2 * Score(card)
    ensures |card.winning| >= 1 ==> Score(card) <= Arith.Pow2(|card.winning| - 1)
  {
    var m := Matches(card);
    if m > 0 {
      Pow2AtLeast(m - 1);
      Pow2Monotone(m - 1, |card.winning| - 1);
      assert Arith.Pow2(m - 1) >= 1;
    }
  }

  /** sum(card.score() for card in cards) */
  function TotalScore(cards: seq<Card>): nat
  {
    if cards == [] then 0 else TotalScore(cards[..|cards| - 1]) + Score(cards[|cards| - 1])
  }

  /** Part one is 0 exactly when no card has a match. */
  lemma {:induction false} TotalScoreZero(cards: seq<Card>)
    ensures TotalScore(cards) == 0 <==> forall k | 0 <= k < |cards| :: Matches(cards[k]) == 0
  {
    if cards != [] {
      var init := cards[..|cards| - 1];
      TotalScoreZero(init);
      ScoreSpec(cards[|cards| - 1]);
      assert forall k | 0 <= k < |init| :: init[k] == cards[k];
    }
  }

  // ---------------------------------------------------------------------------
  // Part two: copies
  // ---------------------------------------------------------------------------

  function Max(a: int, b: int): int
  {
    if a < b then b else a
  }

  /**
   * The buffer after add_matches(m, c): the first m entries gain c, an entry
   * not yet present counting as the one original card, and the rest stay.
   */
  function Added(buffer: seq<int>, m: nat, c: int): (added: seq<int>)
    ensures |added| == Max(|buffer|, m)
  {
    seq(Max(|buffer|, m), t requires 0 <= t < Max(|buffer|, m) =>
      if t < m then (if t < |buffer| then buffer[t] else 1) + c else buffer[t])
  }

  /** The pending copy counts of the cards ahead: entry t belongs to the t-th card from now. */
  class CopyTracker {
    var buffer: seq<int>

    constructor ()
      ensures buffer == []
    {
      buffer := [];
    }

    /** pop: the count of the next card, 1 when nothing is pending for it; its entry is removed. */
    method Pop() returns (count: int)
      modifies this
      ensures old(buffer) == [] ==> count == 1 && buffer == []
      ensures old(buffer) != [] ==> count == old(buffer)[0] && buffer == old(buffer)[1..]
    {
      if buffer != [] {
        count := buffer[0];
        buffer := buffer[1..];
        return;
      }
      count := 1;
    }

    /**
     * add_matches: each of the next m cards gains c copies.  Where the
     * buffer runs out, the rest is appended as c + 1 (the card itself plus
     * the copies); entries at index m and beyond are left alone.
     */
    method AddMatches(m: nat, c: int)
      modifies this
      ensures buffer == Added(old(buffer), m, c)
      ensures |buffer| == Max(|old(buffer)|, m)
      ensures forall t | 0 <= t < m :: buffer[t] == (if t < |old(buffer)| then old(buffer)[t] else 1) + c
      ensures forall t | m <= t < |old(buffer)| :: buffer[t] == old(buffer)[t]
    {
      ghost var before := buffer;
      for index := 0 to m
        invariant index <= |buffer| == |before|
        invariant forall t | 0 <= t < index :: buffer[t] == before[t] + c
        invariant forall t | index <= t < |buffer| :: buffer[t] == before[t]
      {
        if |buffer| <= index {
          buffer := buffer + seq(m - index, _ => c + 1);
          assert buffer == Added(before, m, c);
          return;
        } else {
          buffer := buffer[index := buffer[index] + c];
        }
      }
      assert buffer == Added(before, m, c);
    }
  }

  // The meaning of part two, stated without the buffer: card i is held once,
  // plus once for every copy of each earlier card j whose matches reach it
  // (i <= j + matches of card j).

  /** The last card that card j wins copies of. */
  function Reach(cards: seq<Card>, j: nat): nat
    requires j < |cards|
  {
    j + Matches(cards[j])
  }

  /** How many copies of card i are held in the end. */
  function Copies(cards: seq<Card>, i: nat): nat
    requires i < |cards|
    decreases i, 1
  {
    1 + WonFrom(cards, i, i)
  }

  /** The copies of position i won by the first k cards. */
  function WonFrom(cards: seq<Card>, i: nat, k: nat): nat
    requires k <= |cards| && k <= i
    decreases k, 0
  {
    if k == 0 then 0
    else WonFrom(cards, i, k - 1) + (if i <= Reach(cards, k - 1) then Copies(cards, k - 1) else 0)
  }

  /** The number of cards held in the end among the first n. */
  function TotalCopies(cards: seq<Card>, n: nat): nat
    requires n <= |cards|
  {
    if n == 0 then 0 else TotalCopies(cards, n - 1) + Copies(cards, n - 1)
  }

  /** Nothing is won for a position beyond the reach of every one of the first k cards. */
  lemma {:induction false} WonFromOutOfReach(cards: seq<Card>, i: nat, k: nat)
    requires k <= |cards| && k <= i
    requires forall j | 0 <= j < k :: Reach(cards, j) < i
    ensures WonFrom(cards, i, k) == 0
  {
    if k > 0 {
      WonFromOutOfReach(cards, i, k - 1);
    }
  }

  /** Every card is held at least once, so part two counts at least as many cards as there are. */
  lemma {:induction false} TotalCopiesAtLeast(cards: seq<Card>, n: nat)
    requires n <= |cards|
    ensures TotalCopies(cards, n) >= n
  {
    if n > 0 {
      TotalCopiesAtLeast(cards, n - 1);
    }
  }

  /** With no card matching anything, every card is held exactly once. */
  lemma {:induction false} NoMatchesNoCopies(cards: seq<Card>, n: nat)
    requires n <= |cards|
    requires forall j | 0 <= j < |cards| :: Matches(cards[j]) == 0
    ensures TotalCopies(cards, n) == n
  {
    if n > 0 {
      NoMatchesNoCopies(cards, n - 1);
      WonFromOutOfReach(cards, n - 1, n - 1);
    }
  }

  /**
   * The tracker after the first k cards: entry t holds 1 plus the copies of
   * card k + t won so far, and no card seen so far reaches past the buffer.
   */
  ghost predicate Pending(cards: seq<Card>, k: nat, buffer: seq<int>)
    requires k <= |cards|
  {
    (forall t | 0 <= t < |buffer| :: buffer[t] == 1 + WonFrom(cards, k + t, k))
    && (forall j | 0 <= j < k :: Reach(cards, j) < k + |buffer|)
  }

  /** What the tracker hands out for card k is its number of copies. */
  lemma {:induction false} PopCopies(cards: seq<Card>, k: nat, buffer: seq<int>)
    requires k < |cards| && Pending(cards, k, buffer)
    ensures (if buffer == [] then 1 else buffer[0]) == Copies(cards, k)
  {
    if buffer == [] {
      WonFromOutOfReach(cards, k, k);
    }
  }

  /** Entry t of the tracker after card k: what was pending for that card, plus card k's copies if it reaches there. */
  lemma {:induction false} PendingEntry(cards: seq<Card>, k: nat, buffer: seq<int>, t: nat)
    requires k < |cards| && Pending(cards, k, buffer)
    ensures (if t + 1 < |buffer| then buffer[t + 1] else 1)
              + (if t < Matches(cards[k]) then Copies(cards, k) else 0)
            == 1 + WonFrom(cards, k + 1 + t, k + 1)
  {
    if t + 1 >= |buffer| {
      WonFromOutOfReach(cards, k + 1 + t, k);
    }
  }

  /** Popping card k's entry and adding its matches gives the tracker after card k. */
  lemma {:induction false} PendingStep(cards: seq<Card>, k: nat, buffer: seq<int>)
    requires k < |cards| && Pending(cards, k, buffer)
    ensures Pending(cards, k + 1, Added(if buffer == [] then [] else buffer[1..], Matches(cards[k]), Copies(cards, k)))
  {
    var rest := if buffer == [] then [] else buffer[1..];
    var next := Added(rest, Matches(cards[k]), Copies(cards, k));
    forall t | 0 <= t < |next|
      ensures next[t] == 1 + WonFrom(cards, k + 1 + t, k + 1)
    {
      PendingEntry(cards, k, buffer, t);
      if t < |rest| {
        assert rest[t] == buffer[t + 1];
      }
    }
    assert Reach(cards, k) < k + 1 + |next|;
  }

  /**
   * part_two: take each card's count from the tracker, spread its matches
   * over the cards ahead, and add the count up; the total is the number of
   * cards held in the end.
   */
  method PartTwo(cards: seq<Card>) returns (total: int)
    ensures total == TotalCopies(cards, |cards|)
  {
    var copies := new CopyTracker();
    total := 0;
    for k := 0 to |cards|
      invariant Pending(cards, k, copies.buffer)
      invariant total == TotalCopies(cards, k)
    {
      PopCopies(cards, k, copies.buffer);
      PendingStep(cards, k, copies.buffer);
      var count := copies.Pop();
      var matches := Matches(cards[k]);
      copies.AddMatches(matches, count);
      total := total + count;
    }
  }
}
