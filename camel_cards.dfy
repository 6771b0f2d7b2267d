/**
 * Camel Cards (07/07.py).  A hand is typed by the sorted counts of its
 * cards (five of a kind down to high card); hands compare by type, then
 * card by card by rank.  The winnings are the bids weighted by each hand's
 * place in ascending order.  The ordering and the winnings are shared with
 * the joker variant, which only changes how a hand is typed and how cards
 * rank.
 */
module CamelCards {

  import opened Failures

  /** HandType, weakest first. */
  datatype HandType = HighCard | OnePair | TwoPair | ThreeOfAKind | FullHouse | FourOfAKind | FiveOfAKind

  /** The enum value: 1 for high card up to 7 for five of a kind. */
  function Strength(t: HandType): nat
  {
    match t
    case HighCard => 1
    case OnePair => 2
    case TwoPair => 3
    case ThreeOfAKind => 4
    case FullHouse => 5
    case FourOfAKind => 6
    case FiveOfAKind => 7
  }

  datatype Hand = Hand(cards: string, bid: int)

  predicate NoDup(s: string)
  {
    forall i, j | 0 <= i < j < |s| :: s[i] != s[j]
  }

  // ---------------------------------------------------------------------------
  // Counter(cards): the distinct cards in order of first appearance, each
  // with how often it occurs
  // ---------------------------------------------------------------------------

  /** The keys of Counter(cards): every card once, in order of first appearance. */
  function Distinct(s: string): (d: string)
    ensures NoDup(d) && (forall c :: c in d <==> c in s) && |d| <= |s|
  {
    if s == [] then []
    else
      var init := Distinct(s[..|s| - 1]);
      assert s == s[..|s| - 1] + [s[|s| - 1]];
      if s[|s| - 1] in init then init else init + [s[|s| - 1]]
  }

  /** How often each key occurs. */
  function CountsOf(m: multiset<char>, keys: string): (counts: seq<nat>)
    ensures |counts| == |keys| && forall i | 0 <= i < |keys| :: counts[i] == m[keys[i]]
  {
    if keys == [] then [] else [m[keys[0]]] + CountsOf(m, keys[1..])
  }

  /** Counter(cards).values() */
  function Tally(cards: string): seq<nat>
  {
    CountsOf(multiset(cards), Distinct(cards))
  }

  function Sum(xs: seq<nat>): nat
  {
    if xs == [] then 0 else xs[0] + Sum(xs[1..])
  }

  /** One more occurrence of x adds one to the total exactly when x is a key. */
  lemma {:induction false} SumCountsAdd(m: multiset<char>, keys: string, x: char)
    requires NoDup(keys)
    ensures Sum(CountsOf(m + multiset{x}, keys)) == Sum(CountsOf(m, keys)) + (if x in keys then 1 else 0)
  {
    if keys != [] {
      SumCountsAdd(m, keys[1..], x);
      assert x in keys <==> x == keys[0] || x in keys[1..];
    }
  }

  /** Keys that take in every card of s count all of s. */
  lemma {:induction false} SumCountsAll(s: string, keys: string)
    requires NoDup(keys) && forall c | c in s :: c in keys
    ensures Sum(CountsOf(multiset(s), keys)) == |s|
  {
    if s == [] {
      SumCountsEmpty(keys);
    } else {
      var init := s[..|s| - 1];
      assert s == init + [s[|s| - 1]];
      SumCountsAll(init, keys);
      SumCountsAdd(multiset(init), keys, s[|s| - 1]);
    }
  }

  lemma {:induction false} SumCountsEmpty(keys: string)
    ensures Sum(CountsOf(multiset{}, keys)) == 0
  {
    if keys != [] {
      SumCountsEmpty(keys[1..]);
    }
  }

  /** The counts of a hand are positive and add up to its number of cards. */
  lemma {:induction false} TallySpec(cards: string)
    ensures |Tally(cards)| == |Distinct(cards)|
    ensures forall i | 0 <= i < |Tally(cards)| :: Tally(cards)[i] >= 1
    ensures Sum(Tally(cards)) == |cards|
  {
    SumCountsAll(cards, Distinct(cards));
    var d := Distinct(cards);
    forall i | 0 <= i < |Tally(cards)|
      ensures Tally(cards)[i] >= 1
    {
      assert d[i] in d;
      assert d[i] in multiset(cards);
    }
  }

  /** Dropping place k of a list without repeats drops exactly that card. */
  lemma {:induction false} RemoveAt(d: string, k: nat)
    requires NoDup(d) && k < |d|
    ensures NoDup(d[..k] + d[k + 1..])
    ensures forall c :: c in d[..k] + d[k + 1..] <==> c in d && c != d[k]
  {
    var rest := d[..k] + d[k + 1..];
    forall i | 0 <= i < |rest|
      ensures rest[i] == d[if i < k then i else i + 1]
    {
    }
    forall c | c in d && c != d[k]
      ensures c in rest
    {
      var i :| 0 <= i < |d| && d[i] == c;
      assert rest[if i < k then i else i - 1] == c;
    }
  }

  /** Taking the same card out of two key lists that hold the same cards leaves two such lists. */
  lemma {:induction false} SameKeysWithout(d1: string, d2: string, k: nat)
    requires NoDup(d1) && NoDup(d2) && (forall c :: c in d1 <==> c in d2)
    requires d1 != [] && k < |d2| && d2[k] == d1[0]
    ensures NoDup(d1[1..]) && NoDup(d2[..k] + d2[k + 1..])
    ensures forall c :: c in d1[1..] <==> c in d2[..k] + d2[k + 1..]
  {
    RemoveAt(d2, k);
    RemoveAt(d1, 0);
    assert d1[..0] + d1[1..] == d1[1..];
    forall c
      ensures c in d1[1..] <==> c in d2[..k] + d2[k + 1..]
    {
      assert c in d1 <==> c in d2;
    }
  }

  /** Counting over two key lists that hold the same cards gives the same counts, in some order. */
  lemma {:induction false} CountsOfPermutation(m: multiset<char>, d1: string, d2: string)
    requires NoDup(d1) && NoDup(d2) && forall c :: c in d1 <==> c in d2
    ensures multiset(CountsOf(m, d1)) == multiset(CountsOf(m, d2))
    decreases |d1|
  {
    if d1 != [] {
      assert d1[0] in d2;
      var k :| 0 <= k < |d2| && d2[k] == d1[0];
      var rest := d2[..k] + d2[k + 1..];
      SameKeysWithout(d1, d2, k);
      CountsOfPermutation(m, d1[1..], rest);
      CountsOfRemove(m, d2, k);
      CountsOfCons(m, d1);
      SameRest(multiset(CountsOf(m, d1)), multiset(CountsOf(m, d2)),
        multiset(CountsOf(m, d1[1..])), multiset(CountsOf(m, rest)), m[d1[0]]);
    } else {
      NoKeys(d1, d2);
    }
  }

  /** The counts over keys without place k are the counts over all keys but the one for place k. */
  lemma {:induction false} CountsOfRemove(m: multiset<char>, d: string, k: nat)
    requires k < |d|
    ensures multiset(CountsOf(m, d)) == multiset(CountsOf(m, d[..k] + d[k + 1..])) + multiset{m[d[k]]}
  {
    assert d == d[..k] + [d[k]] + d[k + 1..];
    CountsOfAppend(m, d[..k] + [d[k]], d[k + 1..]);
    CountsOfAppend(m, d[..k], [d[k]]);
    CountsOfAppend(m, d[..k], d[k + 1..]);
  }

  /** Keys that hold the same cards as no keys are no keys. */
  lemma {:induction false} NoKeys(d1: string, d2: string)
    requires d1 == [] && forall c :: c in d1 <==> c in d2
    ensures d2 == []
  {
    if d2 != [] {
      FirstIn(d2);
    }
  }

  /** The first element of a non-empty string is in it. */
  lemma {:induction false} FirstIn(s: string)
    requires s != []
    ensures s[0] in s
  {
  }

  /** The counts over keys are the count of the first key and the counts over the rest. */
  lemma {:induction false} CountsOfCons(m: multiset<char>, d: string)
    requires d != []
    ensures multiset(CountsOf(m, d)) == multiset(CountsOf(m, d[1..])) + multiset{m[d[0]]}
  {
    assert CountsOf(m, d) == [m[d[0]]] + CountsOf(m, d[1..]);
  }

  /** Adding the same count to equal bags of counts gives equal bags. */
  lemma {:induction false} SameRest(a: multiset<nat>, b: multiset<nat>, ra: multiset<nat>, rb: multiset<nat>, x: nat)
    requires a == ra + multiset{x} && b == rb + multiset{x} && ra == rb
    ensures a == b
  {
  }

  lemma {:induction false} CountsOfAppend(m: multiset<char>, a: string, b: string)
    ensures CountsOf(m, a + b) == CountsOf(m, a) + CountsOf(m, b)
  {
  }

  /** There are as many distinct cards as cards exactly when no card repeats. */
  lemma {:induction false} DistinctLength(s: string)
    ensures |Distinct(s)| == |s| <==> NoDup(s)
  {
    if s != [] {
      var init := s[..|s| - 1];
      DistinctLength(init);
      if NoDup(s) {
        assert NoDup(init) by {
          forall i, j | 0 <= i < j < |init|
            ensures init[i] != init[j]
          {
            assert init[i] == s[i] && init[j] == s[j];
          }
        }
        forall i | 0 <= i < |init|
          ensures init[i] != s[|s| - 1]
        {
          assert init[i] == s[i];
        }
      }
      if |Distinct(s)| == |s| {
        assert s[|s| - 1] !in init;
        forall i, j | 0 <= i < j < |s|
          ensures s[i] != s[j]
        {
          if j < |s| - 1 {
            assert init[i] == s[i] && init[j] == s[j];
          } else {
            assert init[i] == s[i];
          }
        }
      }
    }
  }

  // ---------------------------------------------------------------------------
  // sorted(..., reverse=True)
  // ---------------------------------------------------------------------------

  predicate Descending(xs: seq<nat>)
  {
    forall i, j | 0 <= i < j < |xs| :: xs[i] >= xs[j]
  }

  function InsertDesc(x: nat, xs: seq<nat>): (r: seq<nat>)
    ensures |r| == |xs| + 1 && forall k | 0 <= k < |r| :: r[k] == x || r[k] in xs
  {
    if xs == [] then [x] else if x >= xs[0] then [x] + xs else [xs[0]] + InsertDesc(x, xs[1..])
  }

  /** sorted(xs, reverse=True), by insertion. */
  function SortDesc(xs: seq<nat>): seq<nat>
  {
    if xs == [] then [] else InsertDesc(xs[0], SortDesc(xs[1..]))
  }

  lemma {:induction false} InsertDescMembers(x: nat, xs: seq<nat>)
    ensures multiset(InsertDesc(x, xs)) == multiset(xs) + multiset{x}
    ensures Sum(InsertDesc(x, xs)) == x + Sum(xs)
  {
    if xs != [] {
      assert xs == [xs[0]] + xs[1..];
      if x < xs[0] {
        InsertDescMembers(x, xs[1..]);
        assert ([xs[0]] + InsertDesc(x, xs[1..]))[1..] == InsertDesc(x, xs[1..]);
      } else {
        assert ([x] + xs)[1..] == xs;
      }
    }
  }

  lemma {:induction false} InsertDescSpec(x: nat, xs: seq<nat>)
    requires Descending(xs)
    ensures Descending(InsertDesc(x, xs))
  {
    if xs != [] && x < xs[0] {
      InsertDescSpec(x, xs[1..]);
      var rest := InsertDesc(x, xs[1..]);
      forall k | 0 <= k < |rest|
        ensures rest[k] <= xs[0]
      {
        if rest[k] != x {
          var j :| 0 <= j < |xs[1..]| && xs[1..][j] == rest[k];
          assert xs[j + 1] == rest[k];
        }
      }
      var r := [xs[0]] + rest;
      forall i, j | 0 <= i < j < |r|
        ensures r[i] >= r[j]
      {
        assert r[j] == rest[j - 1];
        if i > 0 {
          assert r[i] == rest[i - 1];
        }
      }
    }
  }

  /** sorted(reverse=True) puts the same values, largest first, and keeps their sum. */
  lemma {:induction false} SortDescSpec(xs: seq<nat>)
    ensures Descending(SortDesc(xs))
    ensures multiset(SortDesc(xs)) == multiset(xs)
    ensures Sum(SortDesc(xs)) == Sum(xs)
  {
    if xs != [] {
      SortDescSpec(xs[1..]);
      InsertDescSpec(xs[0], SortDesc(xs[1..]));
      InsertDescMembers(xs[0], SortDesc(xs[1..]));
      assert xs == [xs[0]] + xs[1..];
    }
  }

  /** Taking the same value out of two equal bags leaves equal bags. */
  lemma {:induction false} MultisetCancel<T>(a: seq<T>, b: seq<T>, x: T)
    requires multiset(a) + multiset{x} == multiset(b) + multiset{x}
    ensures multiset(a) == multiset(b)
  {
    forall v
      ensures multiset(a)[v] == multiset(b)[v]
    {
      assert (multiset(a) + multiset{x})[v] == (multiset(b) + multiset{x})[v];
    }
  }

  /** The first of a list sorted largest first is at least every value in it. */
  lemma {:induction false} DescendingHead(a: seq<nat>, v: nat)
    requires Descending(a) && v in multiset(a)
    ensures a[0] >= v
  {
    var i :| 0 <= i < |a| && a[i] == v;
    if i > 0 {
      assert a[0] >= a[i];
    }
  }

  lemma {:induction false} DescendingTail(a: seq<nat>)
    requires Descending(a) && a != []
    ensures Descending(a[1..])
  {
    forall i, j | 0 <= i < j < |a| - 1
      ensures a[1..][i] >= a[1..][j]
    {
      assert a[1..][i] == a[i + 1] && a[1..][j] == a[j + 1];
    }
  }

  /** Two lists sorted largest first with the same values are the same list. */
  lemma {:induction false} DescendingUnique(a: seq<nat>, b: seq<nat>)
    requires Descending(a) && Descending(b) && multiset(a) == multiset(b)
    ensures a == b
    decreases |a|
  {
    assert |b| == |multiset(b)| == |multiset(a)| == |a|;
    if a != [] {
      DescendingFirst(a, b);
      DescendingUnique(a[1..], b[1..]);
      assert a == [a[0]] + a[1..] && b == [b[0]] + b[1..];
    }
  }

  /** Two non-empty lists sorted largest first with the same values start alike and go on alike. */
  lemma {:induction false} DescendingFirst(a: seq<nat>, b: seq<nat>)
    requires Descending(a) && Descending(b) && multiset(a) == multiset(b) && a != [] && b != []
    ensures a[0] == b[0] && multiset(a[1..]) == multiset(b[1..])
    ensures Descending(a[1..]) && Descending(b[1..])
  {
    assert a[0] in multiset(a) && b[0] in multiset(b);
    DescendingHead(a, b[0]);
    DescendingHead(b, a[0]);
    assert a == [a[0]] + a[1..] && b == [b[0]] + b[1..];
    assert multiset(a) == multiset(a[1..]) + multiset{a[0]};
    assert multiset(b) == multiset(b[1..]) + multiset{a[0]};
    MultisetCancel(a[1..], b[1..], a[0]);
    DescendingTail(a);
    DescendingTail(b);
  }

  // ---------------------------------------------------------------------------
  // hand_type
  // ---------------------------------------------------------------------------

  /** The counts of a hand's cards, largest first. */
  function Counts(cards: string): seq<nat>
  {
    SortDesc(Tally(cards))
  }

  /** The hand type of a list of counts, largest first; any pattern not listed is high card. */
  function TypeOfCounts(counts: seq<nat>): HandType
  {
    if counts == [5] then FiveOfAKind
    else if counts == [4, 1] then FourOfAKind
    else if counts == [3, 2] then FullHouse
    else if counts == [3, 1, 1] then ThreeOfAKind
    else if counts == [2, 2, 1] then TwoPair
    else if counts == [2, 1, 1, 1] then OnePair
    else HighCard
  }

  /** hand_type */
  function TypeOf(cards: string): HandType
  {
    TypeOfCounts(Counts(cards))
  }

  /** The sorted counts are largest first, positive, one per distinct card, and add up to the number of cards. */
  lemma {:induction false} CountsSpec(cards: string)
    ensures Descending(Counts(cards))
    ensures |Counts(cards)| == |Distinct(cards)|
    ensures forall i | 0 <= i < |Counts(cards)| :: Counts(cards)[i] >= 1
    ensures Sum(Counts(cards)) == |cards|
  {
    TallySpec(cards);
    SortDescSpec(Tally(cards));
    assert |Counts(cards)| == |multiset(Counts(cards))| == |Tally(cards)|;
    forall i | 0 <= i < |Counts(cards)|
      ensures Counts(cards)[i] >= 1
    {
      assert Counts(cards)[i] in multiset(Tally(cards));
    }
  }

  /** Rearranging the cards of a hand changes neither its counts nor its type. */
  lemma {:induction false} TypeOfPermutation(a: string, b: string)
    requires multiset(a) == multiset(b)
    ensures Counts(a) == Counts(b)
    ensures TypeOf(a) == TypeOf(b)
  {
    forall c
      ensures c in Distinct(a) <==> c in Distinct(b)
    {
      assert c in a <==> c in multiset(a);
      assert c in b <==> c in multiset(b);
    }
    CountsOfPermutation(multiset(a), Distinct(a), Distinct(b));
    SortDescSpec(Tally(a));
    SortDescSpec(Tally(b));
    DescendingUnique(Counts(a), Counts(b));
  }

  /** Positive values are at most as many as their sum. */
  lemma {:induction false} SumBound(xs: seq<nat>)
    requires forall i | 0 <= i < |xs| :: xs[i] >= 1
    ensures |xs| <= Sum(xs)
  {
    if xs != [] {
      SumBound(xs[1..]);
    }
  }

  /** The sum of at most five values, place by place. */
  lemma {:induction false} SumUpToFive(xs: seq<nat>)
    requires |xs| <= 5
    ensures Sum(xs) == (if |xs| > 0 then xs[0] else 0) + (if |xs| > 1 then xs[1] else 0)
      + (if |xs| > 2 then xs[2] else 0) + (if |xs| > 3 then xs[3] else 0) + (if |xs| > 4 then xs[4] else 0)
  {
    if xs != [] {
      SumUpToFive(xs[1..]);
    }
  }

  /** Positive values, largest first, that add up to five make one of the seven listed patterns. */
  lemma {:induction false} FivePatterns(xs: seq<nat>)
    requires Descending(xs) && Sum(xs) == 5
    requires forall i | 0 <= i < |xs| :: xs[i] >= 1
    ensures xs == [5] || xs == [4, 1] || xs == [3, 2] || xs == [3, 1, 1] || xs == [2, 2, 1] || xs == [2, 1, 1, 1] || xs == [1, 1, 1, 1, 1]
  {
    SumBound(xs);
    SumUpToFive(xs);
    if |xs| == 1 {
      assert xs == [5];
    } else if |xs| == 2 {
      PatternsOfTwo(xs);
    } else if |xs| == 3 {
      PatternsOfThree(xs);
    } else if |xs| == 4 {
      PatternsOfFour(xs);
    } else {
      PatternsOfFive(xs);
    }
  }

  lemma {:induction false} PatternsOfTwo(xs: seq<nat>)
    requires |xs| == 2 && xs[0] >= xs[1] >= 1 && xs[0] + xs[1] == 5
    ensures xs == [4, 1] || xs == [3, 2]
  {
    assert xs == [xs[0], xs[1]];
  }

  lemma {:induction false} PatternsOfThree(xs: seq<nat>)
    requires |xs| == 3 && xs[0] >= xs[1] >= xs[2] >= 1 && xs[0] + xs[1] + xs[2] == 5
    ensures xs == [3, 1, 1] || xs == [2, 2, 1]
  {
    assert xs == [xs[0], xs[1], xs[2]];
  }

  lemma {:induction false} PatternsOfFour(xs: seq<nat>)
    requires |xs| == 4 && xs[0] >= xs[1] >= xs[2] >= xs[3] >= 1 && xs[0] + xs[1] + xs[2] + xs[3] == 5
    ensures xs == [2, 1, 1, 1]
  {
    assert xs == [xs[0], xs[1], xs[2], xs[3]];
  }

  lemma {:induction false} PatternsOfFive(xs: seq<nat>)
    requires |xs| == 5 && forall i | 0 <= i < 5 :: xs[i] >= 1
    requires xs[0] + xs[1] + xs[2] + xs[3] + xs[4] == 5
    ensures xs == [1, 1, 1, 1, 1]
  {
    assert xs == [xs[0], xs[1], xs[2], xs[3], xs[4]];
  }

  /**
   * Five cards always make one of the seven listed patterns, so a hand of
   * five is high card exactly when its five cards all differ.
   */
  lemma {:induction false} FiveCardTypes(cards: string)
    requires |cards| == 5
    ensures var c := Counts(cards);
      c == [5] || c == [4, 1] || c == [3, 2] || c == [3, 1, 1] || c == [2, 2, 1] || c == [2, 1, 1, 1] || c == [1, 1, 1, 1, 1]
    ensures TypeOf(cards) == HighCard <==> NoDup(cards)
  {
    CountsSpec(cards);
    FivePatterns(Counts(cards));
    DistinctLength(cards);
  }

  // ---------------------------------------------------------------------------
  // card_order and card_ranks
  // ---------------------------------------------------------------------------

  /**
   * {card: rank for rank, card in enumerate(reversed(labels))}: the last
   * label ranks 0 and the first |labels| - 1; a label listed twice keeps the
   * rank of its first place.
   */
  function RankTable(labels: string): map<char, nat>
  {
    if labels == [] then map[] else RankTable(labels[1..])[labels[0] := |labels| - 1]
  }

  /** Without repeated labels, each label ranks by its distance from the end, and only labels rank. */
  lemma {:induction false} RankTableSpec(labels: string)
    requires NoDup(labels)
    ensures forall c :: c in RankTable(labels) <==> c in labels
    ensures forall i | 0 <= i < |labels| :: RankTable(labels)[labels[i]] == |labels| - 1 - i
  {
    if labels != [] {
      var rest := labels[1..];
      assert NoDup(rest) by {
        forall i, j | 0 <= i < j < |rest|
          ensures rest[i] != rest[j]
        {
          assert rest[i] == labels[i + 1] && rest[j] == labels[j + 1];
        }
      }
      RankTableSpec(rest);
      forall c
        ensures c in labels <==> c == labels[0] || c in rest
      {
        assert labels == [labels[0]] + rest;
      }
      forall i | 0 <= i < |labels|
        ensures RankTable(labels)[labels[i]] == |labels| - 1 - i
      {
        if i > 0 {
          assert labels[i] == rest[i - 1] && labels[i] != labels[0];
        }
      }
    }
  }

  /** The card labels, strongest first. */
  const Labels := "AKQJT98765432"

  /** card_order */
  function CardOrder(): map<char, nat>
  {
    RankTable(Labels)
  }

  /**
   * The order of a label list without repeats is a bijection from the labels
   * onto 0 .. |labels| - 1.
   */
  lemma {:induction false} RankTableBijection(labels: string)
    requires NoDup(labels)
    ensures forall c :: c in RankTable(labels) <==> c in labels
    ensures forall c | c in RankTable(labels) :: RankTable(labels)[c] < |labels|
    ensures forall c, d | c in RankTable(labels) && d in RankTable(labels) && c != d :: RankTable(labels)[c] != RankTable(labels)[d]
    ensures forall r | 0 <= r < |labels| :: r in RankTable(labels).Values
  {
    RankTableSpec(labels);
    forall r | 0 <= r < |labels|
      ensures r in RankTable(labels).Values
    {
      var c := labels[|labels| - 1 - r];
      assert c in RankTable(labels) && RankTable(labels)[c] == r;
    }
    forall c | c in RankTable(labels)
      ensures RankTable(labels)[c] < |labels|
    {
      var i :| 0 <= i < |labels| && labels[i] == c;
    }
    forall c, d | c in RankTable(labels) && d in RankTable(labels) && c != d
      ensures RankTable(labels)[c] != RankTable(labels)[d]
    {
      var i :| 0 <= i < |labels| && labels[i] == c;
      var j :| 0 <= j < |labels| && labels[j] == d;
    }
  }

  /**
   * card_order knows exactly the thirteen labels, ranks them 0 for 2 up to
   * 12 for A, and gives each its own rank.
   */
  lemma {:induction false} CardOrderSpec()
    ensures forall c :: c in CardOrder() <==> c in Labels
    ensures forall i | 0 <= i < 13 :: CardOrder()[Labels[i]] == 12 - i
    ensures forall r | 0 <= r < 13 :: r in CardOrder().Values
    ensures forall c, d | c in CardOrder() && d in CardOrder() && c != d :: CardOrder()[c] != CardOrder()[d]
  {
    LabelsRank(Labels);
  }

  lemma {:induction false} LabelsRank(labels: string)
    requires labels == Labels
    ensures forall c :: c in RankTable(labels) <==> c in labels
    ensures forall i | 0 <= i < 13 :: RankTable(labels)[labels[i]] == 12 - i
    ensures forall r | 0 <= r < 13 :: r in RankTable(labels).Values
    ensures forall c, d | c in RankTable(labels) && d in RankTable(labels) && c != d :: RankTable(labels)[c] != RankTable(labels)[d]
  {
    assert |labels| == 13;
    assert NoDup(labels);
    RankTableSpec(labels);
    RankTableBijection(labels);
  }

  /** Every card of the hand has a rank. */
  predicate Known(order: map<char, nat>, cards: string)
  {
    forall i | 0 <= i < |cards| :: cards[i] in order
  }

  /** The rank of each card in turn, 0 standing in for a card the order does not know. */
  function Ranks(order: map<char, nat>, cards: string): (r: seq<nat>)
    ensures |r| == |cards|
  {
    seq(|cards|, i requires 0 <= i < |cards| => if cards[i] in order then order[cards[i]] else 0)
  }

  /** card_ranks: KeyError for a card the order does not know. */
  function CardRanks(order: map<char, nat>, cards: string): Outcome<seq<nat>>
  {
    if Known(order, cards) then Success(Ranks(order, cards)) else Failure(KeyError)
  }

  /** With an order that gives each card its own rank, hands of known cards rank alike exactly when they are the same cards. */
  lemma {:induction false} CardRanksInjective(order: map<char, nat>, a: string, b: string)
    requires forall c, d | c in order && d in order && c != d :: order[c] != order[d]
    requires CardRanks(order, a).Success? && CardRanks(order, b).Success?
    ensures CardRanks(order, a) == CardRanks(order, b) <==> a == b
  {
    if CardRanks(order, a) == CardRanks(order, b) {
      var ra, rb := Ranks(order, a), Ranks(order, b);
      forall i | 0 <= i < |a|
        ensures a[i] == b[i]
      {
        assert ra[i] == rb[i];
      }
    }
  }

  // ---------------------------------------------------------------------------
  // Tuple comparison
  // ---------------------------------------------------------------------------

  /** Tuple comparison: the first differing place decides, and a proper prefix comes first. */
  predicate LexLess(a: seq<nat>, b: seq<nat>)
  {
    if a == [] then b != []
    else if b == [] then false
    else a[0] < b[0] || (a[0] == b[0] && LexLess(a[1..], b[1..]))
  }

  lemma {:induction false} LexIrreflexive(a: seq<nat>)
    ensures !LexLess(a, a)
  {
    if a != [] {
      LexIrreflexive(a[1..]);
    }
  }

  lemma {:induction false} LexTransitive(a: seq<nat>, b: seq<nat>, c: seq<nat>)
    requires LexLess(a, b) && LexLess(b, c)
    ensures LexLess(a, c)
  {
    if a != [] && b != [] && c != [] && a[0] == b[0] == c[0] {
      LexTransitive(a[1..], b[1..], c[1..]);
    }
  }

  /** Two different lists always compare one way or the other. */
  lemma {:induction false} LexTotal(a: seq<nat>, b: seq<nat>)
    ensures a == b || LexLess(a, b) || LexLess(b, a)
  {
    if a != [] && b != [] && a[0] == b[0] {
      LexTotal(a[1..], b[1..]);
      if a[1..] == b[1..] {
        assert a == [a[0]] + a[1..] && b == [b[0]] + b[1..];
      }
    }
  }

  /** A list below another is not above it. */
  lemma {:induction false} LexAsymmetric(a: seq<nat>, b: seq<nat>)
    requires LexLess(a, b)
    ensures !LexLess(b, a)
  {
    if LexLess(b, a) {
      LexTransitive(a, b, a);
      LexIrreflexive(a);
    }
  }

  /** Not coming first is transitive. */
  lemma {:induction false} LexNotLessTransitive(a: seq<nat>, b: seq<nat>, c: seq<nat>)
    requires !LexLess(b, a) && !LexLess(c, b)
    ensures !LexLess(c, a)
  {
    LexTotal(a, b);
    LexTotal(b, c);
    if a != b && b != c {
      LexTransitive(a, b, c);
      LexAsymmetric(a, c);
    }
  }

  // ---------------------------------------------------------------------------
  // sorted(): a stable insertion sort by a key compared as tuples
  // ---------------------------------------------------------------------------

  /** Put x after every element at the end that x is not below, so equal keys keep their order. */
  function InsertBy<T>(key: T -> seq<nat>, x: T, sorted: seq<T>): (r: seq<T>)
    ensures |r| == |sorted| + 1
  {
    if sorted == [] then [x]
    else if LexLess(key(x), key(sorted[|sorted| - 1])) then
      InsertBy(key, x, sorted[..|sorted| - 1]) + [sorted[|sorted| - 1]]
    else sorted + [x]
  }

  /** sorted(xs), comparing keys. */
  function SortBy<T>(key: T -> seq<nat>, xs: seq<T>): (r: seq<T>)
    ensures |r| == |xs|
  {
    if xs == [] then [] else InsertBy(key, xs[|xs| - 1], SortBy(key, xs[..|xs| - 1]))
  }

  /** No element's key comes before the key of an element before it. */
  predicate Ascending<T>(key: T -> seq<nat>, xs: seq<T>)
  {
    forall i, j | 0 <= i < j < |xs| :: !LexLess(key(xs[j]), key(xs[i]))
  }

  lemma {:induction false} AscendingPrefix<T>(key: T -> seq<nat>, xs: seq<T>, n: nat)
    requires Ascending(key, xs) && n <= |xs|
    ensures Ascending(key, xs[..n])
  {
    forall i, j | 0 <= i < j < n
      ensures !LexLess(key(xs[..n][j]), key(xs[..n][i]))
    {
      assert xs[..n][i] == xs[i] && xs[..n][j] == xs[j];
    }
  }

  lemma {:induction false} InsertByMembers<T>(key: T -> seq<nat>, x: T, sorted: seq<T>)
    ensures multiset(InsertBy(key, x, sorted)) == multiset(sorted) + multiset{x}
  {
    if sorted != [] {
      var init := sorted[..|sorted| - 1];
      assert sorted == init + [sorted[|sorted| - 1]];
      if LexLess(key(x), key(sorted[|sorted| - 1])) {
        InsertByMembers(key, x, init);
      }
    }
  }

  lemma {:induction false} InsertBySorted<T>(key: T -> seq<nat>, x: T, sorted: seq<T>)
    requires Ascending(key, sorted)
    ensures Ascending(key, InsertBy(key, x, sorted))
  {
    if sorted != [] {
      var n := |sorted|;
      var init, last := sorted[..n - 1], sorted[n - 1];
      if LexLess(key(x), key(last)) {
        AscendingPrefix(key, sorted, n - 1);
        InsertBySorted(key, x, init);
        InsertByMembers(key, x, init);
        var front := InsertBy(key, x, init);
        var r := front + [last];
        forall k | 0 <= k < |front|
          ensures !LexLess(key(last), key(front[k]))
        {
          assert front[k] in multiset(init) + multiset{x};
          if front[k] == x {
            LexAsymmetric(key(x), key(last));
          } else {
            var i :| 0 <= i < |init| && init[i] == front[k];
            assert init[i] == sorted[i];
          }
        }
        forall i, j | 0 <= i < j < |r|
          ensures !LexLess(key(r[j]), key(r[i]))
        {
          if j < |front| {
            assert r[i] == front[i] && r[j] == front[j];
          } else {
            assert r[i] == front[i];
          }
        }
      } else {
        var r := sorted + [x];
        forall i, j | 0 <= i < j < |r|
          ensures !LexLess(key(r[j]), key(r[i]))
        {
          if j == n && i < n - 1 {
            LexNotLessTransitive(key(sorted[i]), key(last), key(x));
          }
        }
      }
    }
  }

  /** sorted() returns the same elements in ascending order of key. */
  lemma {:induction false} SortBySpec<T>(key: T -> seq<nat>, xs: seq<T>)
    ensures Ascending(key, SortBy(key, xs))
    ensures multiset(SortBy(key, xs)) == multiset(xs)
  {
    if xs != [] {
      var init := xs[..|xs| - 1];
      assert xs == init + [xs[|xs| - 1]];
      SortBySpec(key, init);
      InsertBySorted(key, xs[|xs| - 1], SortBy(key, init));
      InsertByMembers(key, xs[|xs| - 1], SortBy(key, init));
    }
  }

  /** No two different elements share a key. */
  predicate KeysDistinct<T(==)>(key: T -> seq<nat>, xs: seq<T>)
  {
    forall i, j | 0 <= i < |xs| && 0 <= j < |xs| && key(xs[i]) == key(xs[j]) :: xs[i] == xs[j]
  }

  /** The last element of an ascending list has a key no element's key comes after. */
  lemma {:induction false} AscendingLast<T>(key: T -> seq<nat>, xs: seq<T>, y: T)
    requires Ascending(key, xs) && y in xs
    ensures !LexLess(key(xs[|xs| - 1]), key(y))
  {
    var i :| 0 <= i < |xs| && xs[i] == y;
    if i < |xs| - 1 {
      assert !LexLess(key(xs[|xs| - 1]), key(xs[i]));
    } else {
      LexIrreflexive(key(y));
    }
  }

  /** Two ascending lists of the same elements, no two of which share a key, are the same list. */
  lemma {:induction false} AscendingUnique<T>(key: T -> seq<nat>, a: seq<T>, b: seq<T>)
    requires Ascending(key, a) && Ascending(key, b) && multiset(a) == multiset(b)
    requires KeysDistinct(key, a)
    ensures a == b
    decreases |a|
  {
    assert |b| == |multiset(b)| == |multiset(a)| == |a|;
    if a != [] {
      var n := |a|;
      AscendingLastSame(key, a, b);
      AscendingUnique(key, a[..n - 1], b[..n - 1]);
      assert a == a[..n - 1] + [a[n - 1]] && b == b[..n - 1] + [b[n - 1]];
    }
  }

  /** Two non-empty ascending lists of the same elements with distinct keys end alike and begin alike. */
  lemma {:induction false} AscendingLastSame<T>(key: T -> seq<nat>, a: seq<T>, b: seq<T>)
    requires Ascending(key, a) && Ascending(key, b) && multiset(a) == multiset(b)
    requires KeysDistinct(key, a) && a != [] && |b| == |a|
    ensures a[|a| - 1] == b[|a| - 1] && multiset(a[..|a| - 1]) == multiset(b[..|a| - 1])
    ensures Ascending(key, a[..|a| - 1]) && Ascending(key, b[..|a| - 1]) && KeysDistinct(key, a[..|a| - 1])
  {
    var n := |a|;
    var x := a[n - 1];
    AscendingLastEqual(key, a, b);
    var a', b' := a[..n - 1], b[..n - 1];
    assert a == a' + [x] && b == b' + [x];
    assert multiset(a) == multiset(a') + multiset{x};
    assert multiset(b) == multiset(b') + multiset{x};
    MultisetCancel(a', b', x);
    AscendingPrefix(key, a, n - 1);
    AscendingPrefix(key, b, n - 1);
    KeysDistinctPrefix(key, a, n - 1);
  }

  /** Two non-empty ascending lists of the same elements with distinct keys end with the same element. */
  lemma {:induction false} AscendingLastEqual<T>(key: T -> seq<nat>, a: seq<T>, b: seq<T>)
    requires Ascending(key, a) && Ascending(key, b) && multiset(a) == multiset(b)
    requires KeysDistinct(key, a) && a != [] && |b| == |a|
    ensures a[|a| - 1] == b[|a| - 1]
  {
    var n := |a|;
    var x, y := a[n - 1], b[n - 1];
    assert x in multiset(b) && y in multiset(a);
    AscendingLast(key, a, y);
    AscendingLast(key, b, x);
    LexTotal(key(x), key(y));
    var j :| 0 <= j < n && a[j] == y;
    assert key(a[n - 1]) == key(a[j]);
  }

  /** Distinct keys stay distinct in a prefix. */
  lemma {:induction false} KeysDistinctPrefix<T>(key: T -> seq<nat>, a: seq<T>, n: nat)
    requires KeysDistinct(key, a) && n <= |a|
    ensures KeysDistinct(key, a[..n])
  {
    var a' := a[..n];
    forall p, q | 0 <= p < |a'| && 0 <= q < |a'| && key(a'[p]) == key(a'[q])
      ensures a'[p] == a'[q]
    {
      assert a'[p] == a[p] && a'[q] == a[q];
    }
  }



  // ---------------------------------------------------------------------------
  // __lt__ and the winnings
  // ---------------------------------------------------------------------------

  /** What a game is played with: how a hand is typed and how its cards rank. */
  datatype Rules = Rules(typeOf: string -> HandType, order: map<char, nat>)

  /** The tuple __lt__ compares, flattened: the hand type's value, then the card ranks. */
  function Key(rules: Rules, h: Hand): seq<nat>
  {
    [Strength(rules.typeOf(h.cards))] + Ranks(rules.order, h.cards)
  }

  /** Hand.__lt__: KeyError when a hand holds a card without a rank. */
  function LessThan(rules: Rules, x: Hand, y: Hand): Outcome<bool>
  {
    if Known(rules.order, x.cards) && Known(rules.order, y.cards) then Success(LexLess(Key(rules, x), Key(rules, y)))
    else Failure(KeyError)
  }

  /**
   * __lt__ compares the hand types first and the card ranks only between
   * hands of the same type; KeyError exactly when a card has no rank.
   */
  lemma {:induction false} LessThanSpec(rules: Rules, x: Hand, y: Hand)
    ensures LessThan(rules, x, y).Failure? <==> !Known(rules.order, x.cards) || !Known(rules.order, y.cards)
    ensures LessThan(rules, x, y).Success? ==>
      var tx, ty := Strength(rules.typeOf(x.cards)), Strength(rules.typeOf(y.cards));
      LessThan(rules, x, y).value
        == (tx < ty || (tx == ty && LexLess(CardRanks(rules.order, x.cards).value, CardRanks(rules.order, y.cards).value)))
  {
    var kx, ky := Key(rules, x), Key(rules, y);
    assert kx[1..] == Ranks(rules.order, x.cards) && ky[1..] == Ranks(rules.order, y.cards);
  }

  predicate AllKnown(rules: Rules, hs: seq<Hand>)
  {
    forall i | 0 <= i < |hs| :: Known(rules.order, hs[i].cards)
  }

  /** sorted(hands) */
  function SortHands(rules: Rules, hs: seq<Hand>): seq<Hand>
  {
    SortBy(h => Key(rules, h), hs)
  }

  /** sum(i * hand.bid for i, hand in enumerate(hands, start=1)) */
  function Weighted(hs: seq<Hand>): int
  {
    if hs == [] then 0 else Weighted(hs[..|hs| - 1]) + |hs| * hs[|hs| - 1].bid
  }

  /**
   * The total winnings: the bids weighted by place once the hands are
   * sorted.  Sorting two or more hands compares every one of them, so a
   * card without a rank raises KeyError then; a single hand is never compared.
   */
  function Winnings(rules: Rules, hands: seq<Hand>): Outcome<int>
  {
    if |hands| >= 2 && !AllKnown(rules, hands) then Failure(KeyError)
    else Success(Weighted(SortHands(rules, hands)))
  }

  /** part_one */
  function PartOne(hands: seq<Hand>): Outcome<int>
  {
    Winnings(Rules(TypeOf, CardOrder()), hands)
  }

  /**
   * The winnings weight the hands in ascending order, and they do not depend
   * on the order the hands are listed in as long as no two different hands
   * tie.
   */
  lemma {:induction false} WinningsSpec(rules: Rules, a: seq<Hand>, b: seq<Hand>)
    requires multiset(a) == multiset(b)
    requires KeysDistinct(h => Key(rules, h), a)
    ensures Ascending(h => Key(rules, h), SortHands(rules, a))
    ensures multiset(SortHands(rules, a)) == multiset(a)
    ensures Winnings(rules, a) == Winnings(rules, b)
  {
    var key := h => Key(rules, h);
    assert AllKnown(rules, a) <==> AllKnown(rules, b) by {
      forall k | 0 <= k < |b|
        ensures b[k] in multiset(a)
      {
      }
      forall k | 0 <= k < |a|
        ensures a[k] in multiset(b)
      {
      }
    }
    SortBySpec(key, a);
    SortBySpec(key, b);
    var sa, sb := SortHands(rules, a), SortHands(rules, b);
    assert KeysDistinct(key, sa) by {
      forall p, q | 0 <= p < |sa| && 0 <= q < |sa| && key(sa[p]) == key(sa[q])
        ensures sa[p] == sa[q]
      {
        assert sa[p] in multiset(a) && sa[q] in multiset(a);
        var i :| 0 <= i < |a| && a[i] == sa[p];
        var j :| 0 <= j < |a| && a[j] == sa[q];
      }
    }
    AscendingUnique(key, sa, sb);
  }
}
