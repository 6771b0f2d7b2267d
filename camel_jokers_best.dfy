/**
 * Why the jokers join the largest group (07/07b.py): whatever cards the
 * jokers of a five-card hand stand for, the hand typed as those cards is
 * never stronger than the joker type the game gives it.
 *
 * The argument compares two numbers of each hand: the largest count and
 * the two largest counts together.  On five cards the hand type only grows
 * with both, and standing the jokers for the card with the largest count
 * makes both as large as any choice can.
 */
module CamelJokersBest {

  import opened CamelCards
  import opened CamelJokers

  /** r is a hand the jokers of cards could stand for: every other card stays in its place. */
  predicate Replaces(cards: string, r: string)
  {
    |r| == |cards| && forall i | 0 <= i < |cards| :: cards[i] != 'J' ==> r[i] == cards[i]
  }

  /** The largest count of a hand. */
  function Top(h: string): nat
  {
    var c := Counts(h);
    if c == [] then 0 else c[0]
  }

  /** The two largest counts together, or the one count when the hand holds one kind of card. */
  function Pair(h: string): nat
  {
    var c := Counts(h);
    if c == [] then 0 else if |c| == 1 then c[0] else c[0] + c[1]
  }

  // ---------------------------------------------------------------------------
  // The hand type grows with the largest and the two largest counts
  // ---------------------------------------------------------------------------

  /** On five cards, a hand whose largest and two largest counts are no larger is no stronger. */
  lemma {:induction false} StrengthMonotone(h1: string, h2: string)
    requires |h1| == 5 && |h2| == 5
    requires Top(h1) <= Top(h2) && Pair(h1) <= Pair(h2)
    ensures Strength(TypeOf(h1)) <= Strength(TypeOf(h2))
  {
    FiveCardTypes(h1);
    FiveCardTypes(h2);
  }

  // ---------------------------------------------------------------------------
  // What the two numbers say about the cards of a hand
  // ---------------------------------------------------------------------------

  /** Dropping place i of a list takes one copy of its value out of the bag. */
  lemma {:induction false} DropAt(a: seq<nat>, i: nat)
    requires i < |a|
    ensures multiset(a) == multiset(a[..i] + a[i + 1..]) + multiset{a[i]}
  {
    assert a == a[..i] + [a[i]] + a[i + 1..];
  }

  /** Another place j of a list is still there once place i is dropped. */
  lemma {:induction false} KeptAt(a: seq<nat>, i: nat, j: nat)
    requires i < |a| && j < |a| && i != j
    ensures a[j] in multiset(a[..i] + a[i + 1..])
  {
    var a' := a[..i] + a[i + 1..];
    if j < i {
      assert a'[j] == a[j];
    } else {
      assert a'[j - 1] == a[j];
    }
  }

  /** Two different places of one list hold values found at two different places of any rearrangement. */
  lemma {:induction false} TwoPlaces(a: seq<nat>, b: seq<nat>, i: nat, j: nat) returns (p: nat, q: nat)
    requires multiset(a) == multiset(b) && i < |a| && j < |a| && i != j
    ensures p < |b| && q < |b| && p != q && b[p] == a[i] && b[q] == a[j]
  {
    assert a[i] in multiset(b);
    p :| 0 <= p < |b| && b[p] == a[i];
    var a', b' := a[..i] + a[i + 1..], b[..p] + b[p + 1..];
    DropAt(a, i);
    DropAt(b, p);
    MultisetCancel(a', b', a[i]);
    KeptAt(a, i, j);
    var q' :| 0 <= q' < |b'| && b'[q'] == a[j];
    q := if q' < p then q' else q' + 1;
  }

  /** Every card of a hand sits at some place of its distinct cards. */
  lemma {:induction false} PlaceOf(h: string, x: char) returns (i: nat)
    requires x in h
    ensures i < |Distinct(h)| && Distinct(h)[i] == x && Tally(h)[i] == multiset(h)[x]
  {
    assert x in Distinct(h);
    i :| 0 <= i < |Distinct(h)| && Distinct(h)[i] == x;
  }

  /** The largest count is how often some card of the hand occurs, and no card occurs more often. */
  lemma {:induction false} TopSpec(h: string) returns (x: char)
    requires h != []
    ensures x in h && multiset(h)[x] == Top(h)
    ensures forall z :: multiset(h)[z] <= Top(h)
  {
    x := TopAttained(h);
    forall z
      ensures multiset(h)[z] <= Top(h)
    {
      TopAbove(h, z);
    }
  }

  /** Some card of a non-empty hand occurs as often as the largest count. */
  lemma {:induction false} TopAttained(h: string) returns (x: char)
    requires h != []
    ensures x in h && multiset(h)[x] == Top(h)
  {
    var t, c := Tally(h), Counts(h);
    CountsSpec(h);
    SortDescSpec(t);
    assert h[0] in Distinct(h);
    assert c[0] in multiset(t);
    var i :| 0 <= i < |t| && t[i] == c[0];
    x := Distinct(h)[i];
  }

  /** No card occurs more often than the largest count. */
  lemma {:induction false} TopAbove(h: string, z: char)
    ensures multiset(h)[z] <= Top(h)
  {
    if z in h {
      var t, c := Tally(h), Counts(h);
      CountsSpec(h);
      SortDescSpec(t);
      var k := PlaceOf(h, z);
      assert t[k] in multiset(c);
    }
  }

  /** The two largest counts are never less than the largest one. */
  lemma {:induction false} PairAtLeastTop(h: string)
    ensures Top(h) <= Pair(h)
  {
  }

  /** Any two different cards occur at most as often, together, as the two largest counts. */
  lemma {:induction false} PairBound(h: string, z: char, w: char)
    requires z != w
    ensures multiset(h)[z] + multiset(h)[w] <= Pair(h)
  {
    if z !in h || w !in h {
      if h != [] {
        var _ := TopSpec(h);
      }
    } else {
      var t, c := Tally(h), Counts(h);
      CountsSpec(h);
      SortDescSpec(t);
      var i := PlaceOf(h, z);
      var j := PlaceOf(h, w);
      var p, q := TwoPlaces(t, c, i, j);
      assert c[p] + c[q] <= c[0] + c[1];
    }
  }

  /**
   * The two largest counts are how often two different cards of the hand
   * occur together, unless the hand holds one kind of card only.
   */
  lemma {:induction false} PairSpec(h: string) returns (x: char, y: char)
    requires h != []
    ensures Pair(h) == Top(h) || (x != y && Pair(h) == multiset(h)[x] + multiset(h)[y])
  {
    var t, c := Tally(h), Counts(h);
    CountsSpec(h);
    SortDescSpec(t);
    if |c| <= 1 {
      x, y := h[0], h[0];
    } else {
      var i, j := TwoPlaces(c, t, 0, 1);
      assert NoDup(Distinct(h));
      x, y := Distinct(h)[i], Distinct(h)[j];
    }
  }

  // ---------------------------------------------------------------------------
  // What standing in for the jokers can do to the counts
  // ---------------------------------------------------------------------------

  /** Standing in for the jokers adds at most the jokers to a card other than the joker. */
  lemma {:induction false} ReplaceOneBound(cards: string, r: string, x: char)
    requires Replaces(cards, r)
    ensures multiset(r)[x] <= multiset(cards)[x] + (if x == 'J' then 0 else multiset(cards)['J'])
    decreases |cards|
  {
    if cards != [] {
      var n := |cards| - 1;
      assert Replaces(cards[..n], r[..n]);
      ReplaceOneBound(cards[..n], r[..n], x);
      assert cards == cards[..n] + [cards[n]];
      assert r == r[..n] + [r[n]];
    }
  }

  /** Standing in for the jokers adds at most the jokers to two different cards together, and nothing when one of them is the joker. */
  lemma {:induction false} ReplaceTwoBound(cards: string, r: string, x: char, y: char)
    requires Replaces(cards, r) && x != y
    ensures multiset(r)[x] + multiset(r)[y]
      <= multiset(cards)[x] + multiset(cards)[y] + (if x == 'J' || y == 'J' then 0 else multiset(cards)['J'])
    decreases |cards|
  {
    if cards != [] {
      var n := |cards| - 1;
      assert Replaces(cards[..n], r[..n]);
      ReplaceTwoBound(cards[..n], r[..n], x, y);
      assert cards == cards[..n] + [cards[n]];
      assert r == r[..n] + [r[n]];
    }
  }

  // ---------------------------------------------------------------------------
  // The jokers joining the largest group make both numbers as large as any choice
  // ---------------------------------------------------------------------------

  /** The cards the target outnumbers: every card but the joker. */
  lemma {:induction false} TargetLargest(cards: string, x: char)
    requires 'J' in cards && Others(cards) != [] && x != 'J'
    ensures multiset(cards)[x] <= multiset(cards)[JokerTarget(cards)]
  {
    JokerTargetSpec(cards);
  }

  /** No stand-in for the jokers has a larger count than the jokers joining the target. */
  lemma {:induction false} TopDominated(cards: string, r: string)
    requires 'J' in cards && Others(cards) != [] && Replaces(cards, r) && r != []
    ensures Top(r) <= Top(Replace(cards, JokerTarget(cards)))
  {
    var t := JokerTarget(cards);
    var b := Replace(cards, t);
    JokerTargetSpec(cards);
    var x := TopSpec(r);
    ReplaceOneBound(cards, r, x);
    ReplaceCount(cards, t, t);
    if x != 'J' {
      TargetLargest(cards, x);
    }
    var _ := TopSpec(b);
  }

  /** No stand-in for the jokers has two larger counts together than the jokers joining the target. */
  lemma {:induction false} PairDominated(cards: string, r: string)
    requires 'J' in cards && Others(cards) != [] && Replaces(cards, r) && r != []
    ensures Pair(r) <= Pair(Replace(cards, JokerTarget(cards)))
  {
    var t := JokerTarget(cards);
    var b := Replace(cards, t);
    JokerTargetSpec(cards);
    TopDominated(cards, r);
    PairAtLeastTop(b);
    var x, y := PairSpec(r);
    if Pair(r) != Top(r) {
      ReplaceTwoBound(cards, r, x, y);
      ReplaceCount(cards, t, t);
      ReplaceCount(cards, t, x);
      ReplaceCount(cards, t, y);
      var _ := TopSpec(b);
      if x == 'J' || y == 'J' {
        var other := if x == 'J' then y else x;
        if other != t {
          PairBound(b, t, other);
        }
      } else if x == t || y == t {
        PairBound(b, x, y);
      } else {
        TargetLargest(cards, x);
        PairBound(b, t, y);
      }
    }
  }

  /**
   * Whatever cards the jokers of a five-card hand stand for, that hand is no
   * stronger than the hand's joker type.
   */
  lemma {:induction false} JokersBest(cards: string, r: string)
    requires |cards| == 5 && Replaces(cards, r)
    ensures Strength(TypeOf(r)) <= Strength(JokerTypeOf(cards))
  {
    if 'J' !in cards {
      assert r == cards;
      NoJokerSameType(cards);
    } else if Others(cards) == [] {
      OnlyJokers(cards);
      AllJokers(cards);
    } else {
      JokersJoinTarget(cards);
      TopDominated(cards, r);
      PairDominated(cards, r);
      StrengthMonotone(r, Replace(cards, JokerTarget(cards)));
    }
  }
}
