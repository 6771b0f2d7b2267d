/**
 * Camel Cards with jokers (07/07b.py).  J is a joker: it ranks below every
 * other card, and when a hand is typed its jokers join the card the hand
 * holds most of (the first such card in order of first appearance).  A
 * hand of jokers only stays as it is.  Comparison and winnings are those of
 * the game without jokers, with this typing and this card order.
 */
module CamelJokers {

  import opened Failures
  import opened CamelCards

  // ---------------------------------------------------------------------------
  // card_order
  // ---------------------------------------------------------------------------

  /** The card labels, strongest first, the joker last. */
  const JokerLabels := "AKQT98765432J"

  /** card_order */
  function JokerCardOrder(): map<char, nat>
  {
    RankTable(JokerLabels)
  }

  /**
   * card_order knows exactly the thirteen labels and gives each its own
   * rank: J ranks 0, below 2 at 1, and A ranks 12.
   */
  lemma {:induction false} JokerCardOrderSpec()
    ensures forall c :: c in JokerCardOrder() <==> c in JokerLabels
    ensures forall i | 0 <= i < 13 :: JokerCardOrder()[JokerLabels[i]] == 12 - i
    ensures JokerCardOrder()['J'] == 0 && JokerCardOrder()['2'] == 1 && JokerCardOrder()['A'] == 12
    ensures forall r | 0 <= r < 13 :: r in JokerCardOrder().Values
    ensures forall c, d | c in JokerCardOrder() && d in JokerCardOrder() && c != d :: JokerCardOrder()[c] != JokerCardOrder()[d]
  {
    JokerLabelsRank(JokerLabels);
    assert JokerLabels[12] == 'J' && JokerLabels[11] == '2' && JokerLabels[0] == 'A';
  }

  lemma {:induction false} JokerLabelsRank(labels: string)
    requires labels == JokerLabels
    ensures forall c :: c in RankTable(labels) <==> c in labels
    ensures forall i | 0 <= i < 13 :: RankTable(labels)[labels[i]] == 12 - i
    ensures forall r | 0 <= r < 13 :: r in RankTable(labels).Values
    ensures forall c, d | c in RankTable(labels) && d in RankTable(labels) && c != d :: RankTable(labels)[c] != RankTable(labels)[d]
  {
    assert |labels| == 13;
    assert NoDup(labels);
    RankTableSpec(labels);
    RankTableBijection(labels);
  }

  // ---------------------------------------------------------------------------
  // The Counter hand_type works on
  // ---------------------------------------------------------------------------

  /** Counter(cards) as a map: each card of the hand to how often it occurs. */
  function CounterOf(cards: string): map<char, nat>
  {
    map c | c in cards :: multiset(cards)[c]
  }

  /** The counter holds the cards of the hand, each with how often it occurs. */
  lemma {:induction false} CounterOfSpec(cards: string)
    ensures forall c :: c in CounterOf(cards) <==> c in cards
    ensures forall c | c in CounterOf(cards) :: CounterOf(cards)[c] == multiset(cards)[c]
  {
  }

  /** counts.values(), in the order of the keys. */
  function Values(keys: string, counts: map<char, nat>): (vs: seq<nat>)
    requires forall i | 0 <= i < |keys| :: keys[i] in counts
    ensures |vs| == |keys| && forall i | 0 <= i < |keys| :: vs[i] == counts[keys[i]]
  {
    if keys == [] then [] else [counts[keys[0]]] + Values(keys[1..], counts)
  }

  /** The keys after counts.pop(c): c is gone and the others keep their order. */
  function Without(keys: string, c: char): (r: string)
    ensures forall x :: x in r <==> x in keys && x != c
  {
    if keys == [] then []
    else if keys[0] == c then Without(keys[1..], c)
    else [keys[0]] + Without(keys[1..], c)
  }

  lemma {:induction false} WithoutNoDup(keys: string, c: char)
    requires NoDup(keys)
    ensures NoDup(Without(keys, c))
  {
    if keys != [] {
      var rest := keys[1..];
      assert NoDup(rest) by {
        forall i, j | 0 <= i < j < |rest|
          ensures rest[i] != rest[j]
        {
          assert rest[i] == keys[i + 1] && rest[j] == keys[j + 1];
        }
      }
      WithoutNoDup(rest, c);
      if keys[0] != c {
        var r := [keys[0]] + Without(rest, c);
        forall i, j | 0 <= i < j < |r|
          ensures r[i] != r[j]
        {
          assert r[j] == Without(rest, c)[j - 1];
          if i > 0 {
            assert r[i] == Without(rest, c)[i - 1];
          } else {
            assert r[j] in Without(rest, c);
          }
        }
      }
    }
  }

  /**
   * max(counts.items(), key=count): the place of the largest count, the
   * first one when several tie.
   */
  function FirstMax(vs: seq<nat>): (k: nat)
    requires vs != []
    ensures k < |vs|
  {
    if |vs| == 1 then 0
    else
      var k := FirstMax(vs[..|vs| - 1]);
      if vs[|vs| - 1] > vs[k] then |vs| - 1 else k
  }

  /** The place max picks holds the largest count, and every count before it is smaller. */
  lemma {:induction false} FirstMaxSpec(vs: seq<nat>)
    requires vs != []
    ensures forall i | 0 <= i < |vs| :: vs[i] <= vs[FirstMax(vs)]
    ensures forall i | 0 <= i < FirstMax(vs) :: vs[i] < vs[FirstMax(vs)]
  {
    if |vs| > 1 {
      var init := vs[..|vs| - 1];
      FirstMaxSpec(init);
      assert forall i | 0 <= i < |init| :: init[i] == vs[i];
    }
  }

  // ---------------------------------------------------------------------------
  // hand_type
  // ---------------------------------------------------------------------------

  /** The keys of Counter(cards) other than the joker. */
  function Others(cards: string): string
  {
    Without(Distinct(cards), 'J')
  }

  /** The card the jokers join: the first of the others with the largest count. */
  function JokerTarget(cards: string): char
    requires Others(cards) != []
  {
    var others := Others(cards);
    others[FirstMax(CountsOf(multiset(cards), others))]
  }

  /** The counts with n added to the first largest one. */
  function Joined(counts: seq<nat>, n: nat): seq<nat>
    requires counts != []
  {
    counts[FirstMax(counts) := counts[FirstMax(counts)] + n]
  }

  /**
   * The counts hand_type sorts, in key order: without a joker the counts of
   * the hand; with jokers only, their count; otherwise the counts of the
   * other cards with the jokers' count added to the card they join.
   */
  function Boosted(cards: string): seq<nat>
  {
    if 'J' !in cards then Tally(cards)
    else if Others(cards) == [] then [multiset(cards)['J']]
    else Joined(CountsOf(multiset(cards), Others(cards)), multiset(cards)['J'])
  }

  /** The hand type with jokers. */
  function JokerTypeOf(cards: string): HandType
  {
    TypeOfCounts(SortDesc(Boosted(cards)))
  }

  /** The counter before any change: its values are the counts of the hand. */
  lemma {:induction false} CounterValues(cards: string)
    ensures forall i | 0 <= i < |Distinct(cards)| :: Distinct(cards)[i] in CounterOf(cards)
    ensures Values(Distinct(cards), CounterOf(cards)) == Tally(cards)
  {
    CounterOfSpec(cards);
  }

  /** After popping the joker the counter holds the counts of the other cards, and is empty exactly when there are none. */
  lemma {:induction false} PoppedValues(cards: string)
    ensures forall i | 0 <= i < |Others(cards)| :: Others(cards)[i] in CounterOf(cards) - {'J'}
    ensures Values(Others(cards), CounterOf(cards) - {'J'}) == CountsOf(multiset(cards), Others(cards))
    ensures CounterOf(cards) - {'J'} == map[] <==> Others(cards) == []
  {
    var counts, keys := CounterOf(cards) - {'J'}, Others(cards);
    CounterOfSpec(cards);
    if counts != map[] {
      var c :| c in counts;
      assert c in keys;
    }
  }

  /** Adding to the count of one key of a counter adds to that place of its values only. */
  lemma {:induction false} AddedValues(keys: string, counts: map<char, nat>, after: map<char, nat>, k: nat, n: nat)
    requires NoDup(keys) && k < |keys|
    requires forall i | 0 <= i < |keys| :: keys[i] in counts
    requires after == counts[keys[k] := counts[keys[k]] + n]
    ensures forall i | 0 <= i < |keys| :: keys[i] in after
    ensures Values(keys, after) == Values(keys, counts)[k := counts[keys[k]] + n]
  {
    forall i | 0 <= i < |keys|
      ensures Values(keys, after)[i] == Values(keys, counts)[k := counts[keys[k]] + n][i]
    {
      if i != k {
        assert keys[i] != keys[k];
      }
    }
  }

  /**
   * Once the jokers are popped, adding their count to the first card with
   * the largest count leaves the counts of Boosted.
   */
  lemma {:induction false} JoinedCounts(cards: string, keys: string, counts: map<char, nat>, k: nat, maxCard: char, n: nat)
    requires 'J' in cards && keys == Others(cards) && keys != [] && counts == CounterOf(cards) - {'J'}
    requires forall i | 0 <= i < |keys| :: keys[i] in counts
    requires k == FirstMax(Values(keys, counts)) && maxCard == keys[k] && n == multiset(cards)['J']
    ensures forall i | 0 <= i < |keys| :: keys[i] in counts[maxCard := counts[maxCard] + n]
    ensures Values(keys, counts[maxCard := counts[maxCard] + n]) == Boosted(cards)
  {
    var joined := counts[maxCard := counts[maxCard] + n];
    PoppedValues(cards);
    WithoutNoDup(Distinct(cards), 'J');
    AddedValues(keys, counts, joined, k, n);
    var c := CountsOf(multiset(cards), keys);
    assert Values(keys, counts) == c;
    assert k == FirstMax(c);
    assert counts[keys[k]] == c[k];
    assert Values(keys, joined) == c[k := c[k] + n];
    assert Joined(c, n) == c[k := c[k] + n];
    assert Boosted(cards) == Joined(c, n);
  }

  /**
   * hand_type: count the cards; if there is a joker, pop its count and put
   * it back when nothing else is left, or else add it to the first card with
   * the largest count; then type the counts, largest first.
   */
  method JokerHandType(cards: string) returns (t: HandType)
    ensures t == JokerTypeOf(cards)
  {
    var keys := Distinct(cards);
    var counts := CounterOf(cards);
    CounterOfSpec(cards);
    CounterValues(cards);
    if 'J' in counts && counts != map[] {
      var totalJ := counts['J'];
      counts := counts - {'J'};
      keys := Without(keys, 'J');
      assert keys == Others(cards) && counts == CounterOf(cards) - {'J'};
      PoppedValues(cards);
      if counts == map[] {
        counts := counts['J' := totalJ];
        keys := keys + ['J'];
        assert keys == ['J'] && counts['J'] == multiset(cards)['J'];
        assert Values(keys, counts) == [multiset(cards)['J']] == Boosted(cards);
      } else {
        var k := FirstMax(Values(keys, counts));
        var maxCard := keys[k];
        JoinedCounts(cards, keys, counts, k, maxCard, totalJ);
        counts := counts[maxCard := counts[maxCard] + totalJ];
        assert Values(keys, counts) == Boosted(cards);
      }
    } else {
      assert 'J' !in cards;
      assert Values(keys, counts) == Boosted(cards);
    }
    assert Values(keys, counts) == Boosted(cards);
    t := TypeOfCounts(SortDesc(Values(keys, counts)));
  }

  // ---------------------------------------------------------------------------
  // What the joker rule does to the counts
  // ---------------------------------------------------------------------------

  /** Taking a key out of keys without repeats takes its count out of their sum. */
  lemma {:induction false} SumWithout(m: multiset<char>, keys: string, c: char)
    requires NoDup(keys)
    ensures Sum(CountsOf(m, keys)) == Sum(CountsOf(m, Without(keys, c))) + (if c in keys then m[c] else 0)
    ensures |Without(keys, c)| == |keys| - (if c in keys then 1 else 0)
  {
    if keys != [] {
      var rest := keys[1..];
      assert NoDup(rest) by {
        forall i, j | 0 <= i < j < |rest|
          ensures rest[i] != rest[j]
        {
          assert rest[i] == keys[i + 1] && rest[j] == keys[j + 1];
        }
      }
      SumWithout(m, rest, c);
      assert c in keys <==> c == keys[0] || c in rest;
      if keys[0] != c {
        var w := [keys[0]] + Without(rest, c);
        assert w[0] == keys[0] && w[1..] == Without(rest, c);
      }
    }
  }

  /** The counts of a joined list: n more in all, and one place grown by n. */
  lemma {:induction false} SumUpdate(xs: seq<nat>, k: nat, v: nat)
    requires k < |xs|
    ensures Sum(xs[k := v]) + xs[k] == Sum(xs) + v
  {
    if k > 0 {
      SumUpdate(xs[1..], k - 1, v);
      assert xs[k := v][1..] == xs[1..][k - 1 := v];
    }
  }

  /** Every card of a hand of jokers only is a joker, so it has no other card. */
  lemma {:induction false} OnlyJokers(cards: string)
    requires 'J' in cards
    ensures Others(cards) == [] <==> forall i | 0 <= i < |cards| :: cards[i] == 'J'
  {
    if Others(cards) == [] {
      forall i | 0 <= i < |cards|
        ensures cards[i] == 'J'
      {
        assert cards[i] in Distinct(cards);
      }
    } else {
      var c := Others(cards)[0];
      assert c in Distinct(cards) && c != 'J';
    }
  }

  /**
   * The counts the jokers give add up to the number of cards and are all
   * positive; there is one fewer of them than distinct cards exactly when
   * the jokers join another card.
   */
  lemma {:induction false} BoostedSpec(cards: string)
    ensures Sum(Boosted(cards)) == |cards|
    ensures forall i | 0 <= i < |Boosted(cards)| :: Boosted(cards)[i] >= 1
    ensures |Boosted(cards)| == |Distinct(cards)| - (if 'J' in cards && Others(cards) != [] then 1 else 0)
  {
    TallySpec(cards);
    if 'J' in cards {
      var m, d := multiset(cards), Distinct(cards);
      SumCountsAll(cards, d);
      SumWithout(m, d, 'J');
      if Others(cards) != [] {
        JoinedSpec(CountsOf(m, Others(cards)), m['J']);
        OthersCounted(cards);
      }
    }
  }

  /** Joining n to the largest count adds n to the sum, keeps the length, and keeps positive counts positive. */
  lemma {:induction false} JoinedSpec(counts: seq<nat>, n: nat)
    requires counts != []
    ensures Sum(Joined(counts, n)) == Sum(counts) + n
    ensures |Joined(counts, n)| == |counts|
    ensures (forall i | 0 <= i < |counts| :: counts[i] >= 1) ==> forall i | 0 <= i < |counts| :: Joined(counts, n)[i] >= 1
  {
    var k := FirstMax(counts);
    SumUpdate(counts, k, counts[k] + n);
  }

  /** The counts of the cards other than the joker are positive. */
  lemma {:induction false} OthersCounted(cards: string)
    ensures forall i | 0 <= i < |Others(cards)| :: CountsOf(multiset(cards), Others(cards))[i] >= 1
  {
    forall i | 0 <= i < |Others(cards)|
      ensures CountsOf(multiset(cards), Others(cards))[i] >= 1
    {
      assert Others(cards)[i] in cards;
    }
  }

  /** A hand without a joker is typed as it is without the joker rule. */
  lemma {:induction false} NoJokerSameType(cards: string)
    requires 'J' !in cards
    ensures Boosted(cards) == Tally(cards)
    ensures JokerTypeOf(cards) == TypeOf(cards)
  {
  }

  /** A hand of jokers only keeps its one count, so five jokers are five of a kind. */
  lemma {:induction false} AllJokers(cards: string)
    requires cards != [] && forall i | 0 <= i < |cards| :: cards[i] == 'J'
    ensures Boosted(cards) == [|cards|]
    ensures |cards| == 5 ==> JokerTypeOf(cards) == FiveOfAKind
  {
    assert cards[0] == 'J';
    OnlyJokers(cards);
    BoostedSpec(cards);
    assert Sum([multiset(cards)['J']]) == multiset(cards)['J'];
    assert SortDesc([|cards|]) == [|cards|];
  }

  /** The card the jokers join is another card of the hand, and no other card of the hand is more common. */
  lemma {:induction false} JokerTargetSpec(cards: string)
    requires 'J' in cards && Others(cards) != []
    ensures JokerTarget(cards) in cards && JokerTarget(cards) != 'J'
    ensures forall x | x in cards && x != 'J' :: multiset(cards)[x] <= multiset(cards)[JokerTarget(cards)]
  {
    var m, others := multiset(cards), Others(cards);
    var c := CountsOf(m, others);
    FirstMaxSpec(c);
    forall x | x in cards && x != 'J'
      ensures m[x] <= m[JokerTarget(cards)]
    {
      assert x in Distinct(cards);
      var i :| 0 <= i < |others| && others[i] == x;
      assert c[i] == m[x];
    }
  }

  /** The hand with every joker turned into card c. */
  function Replace(cards: string, c: char): (r: string)
    ensures |r| == |cards|
  {
    if cards == [] then [] else [if cards[0] == 'J' then c else cards[0]] + Replace(cards[1..], c)
  }

  /** Turning the jokers into c moves their count onto c and leaves every other count. */
  lemma {:induction false} ReplaceCount(cards: string, c: char, x: char)
    requires c != 'J'
    ensures var m := multiset(cards);
      multiset(Replace(cards, c))[x] == if x == 'J' then 0 else if x == c then m[c] + m['J'] else m[x]
  {
    if cards != [] {
      ReplaceCount(cards[1..], c, x);
      var h := if cards[0] == 'J' then c else cards[0];
      assert cards == [cards[0]] + cards[1..];
      assert multiset(cards) == multiset{cards[0]} + multiset(cards[1..]);
      assert multiset(Replace(cards, c)) == multiset{h} + multiset(Replace(cards[1..], c));
    }
  }

  /** With jokers and other cards, Boosted is the counts of the other cards with the jokers joined. */
  lemma {:induction false} BoostedJoined(cards: string)
    requires 'J' in cards && Others(cards) != []
    ensures Boosted(cards) == Joined(CountsOf(multiset(cards), Others(cards)), multiset(cards)['J'])
  {
  }

  /** Joining n changes the largest count only. */
  lemma {:induction false} JoinedAt(counts: seq<nat>, n: nat, i: nat)
    requires counts != [] && i < |counts|
    ensures |Joined(counts, n)| == |counts|
    ensures Joined(counts, n)[i] == if i == FirstMax(counts) then counts[i] + n else counts[i]
  {
  }

  /** The counts of the hand with the jokers turned into c, in the order of the other cards. */
  lemma {:induction false} ReplacedCounts(cards: string)
    requires 'J' in cards && Others(cards) != []
    ensures var r := Replace(cards, JokerTarget(cards));
      CountsOf(multiset(r), Others(cards)) == Boosted(cards)
  {
    var m, others := multiset(cards), Others(cards);
    var c := CountsOf(m, others);
    BoostedJoined(cards);
    var t := JokerTarget(cards);
    var r := Replace(cards, t);
    var k := FirstMax(c);
    WithoutNoDup(Distinct(cards), 'J');
    JokerTargetSpec(cards);
    forall i | 0 <= i < |others|
      ensures CountsOf(multiset(r), others)[i] == Joined(c, m['J'])[i]
    {
      ReplaceCount(cards, t, others[i]);
      JoinedAt(c, m['J'], i);
      if i != k {
        assert others[i] != others[k];
      }
    }
  }

  /**
   * With jokers joining another card, the hand types as the hand with every
   * joker turned into that card, the most common other card.
   */
  lemma {:induction false} JokersJoinTarget(cards: string)
    requires 'J' in cards && Others(cards) != []
    ensures JokerTarget(cards) in cards && JokerTarget(cards) != 'J'
    ensures forall x | x in cards && x != 'J' :: multiset(cards)[x] <= multiset(cards)[JokerTarget(cards)]
    ensures JokerTypeOf(cards) == TypeOf(Replace(cards, JokerTarget(cards)))
  {
    var m, others, t := multiset(cards), Others(cards), JokerTarget(cards);
    var r := Replace(cards, t);
    JokerTargetSpec(cards);
    WithoutNoDup(Distinct(cards), 'J');
    forall x
      ensures x in Distinct(r) <==> x in others
    {
      ReplaceCount(cards, t, x);
      assert x in r <==> x in multiset(r);
      assert x in cards <==> x in m;
    }
    CountsOfPermutation(multiset(r), Distinct(r), others);
    ReplacedCounts(cards);
    SortDescSpec(Tally(r));
    SortDescSpec(Boosted(cards));
    DescendingUnique(Counts(r), SortDesc(Boosted(cards)));
  }

  /** Two lists with the same counts have the same largest count. */
  lemma {:induction false} SameLargest(a: seq<nat>, b: seq<nat>)
    requires a != [] && multiset(a) == multiset(b)
    ensures b != [] && a[FirstMax(a)] == b[FirstMax(b)]
  {
    assert |b| == |multiset(b)| == |multiset(a)| == |a|;
    FirstMaxSpec(a);
    FirstMaxSpec(b);
    assert a[FirstMax(a)] in multiset(b) && b[FirstMax(b)] in multiset(a);
  }

  /** Joining n to the largest count trades that count for itself plus n. */
  lemma {:induction false} JoinedBag(counts: seq<nat>, n: nat)
    requires counts != []
    ensures var top: nat, joinedTop: nat := counts[FirstMax(counts)], counts[FirstMax(counts)] + n;
      multiset(Joined(counts, n)) + multiset{top} == multiset(counts) + multiset{joinedTop}
  {
    var k := FirstMax(counts);
    assert counts == counts[..k] + [counts[k]] + counts[k + 1..];
    assert Joined(counts, n) == counts[..k] + [counts[k] + n] + counts[k + 1..];
  }

  /** Joining n to two lists with the same counts gives the same counts again. */
  lemma {:induction false} JoinedPermutation(ca: seq<nat>, cb: seq<nat>, n: nat)
    requires ca != [] && multiset(ca) == multiset(cb)
    ensures cb != [] && multiset(Joined(ca, n)) == multiset(Joined(cb, n))
  {
    SameLargest(ca, cb);
    JoinedBag(ca, n);
    JoinedBag(cb, n);
    MultisetCancel(Joined(ca, n), Joined(cb, n), ca[FirstMax(ca)]);
  }

  /** Hands with the same cards have the same keys, with and without the joker. */
  lemma {:induction false} SameKeys(a: string, b: string)
    requires multiset(a) == multiset(b)
    ensures forall c :: c in a <==> c in b
    ensures forall c :: c in Distinct(a) <==> c in Distinct(b)
    ensures forall c :: c in Others(a) <==> c in Others(b)
  {
    forall c
      ensures c in a <==> c in b
    {
      assert c in a <==> c in multiset(a);
      assert c in b <==> c in multiset(b);
    }
  }

  /** With jokers and other cards, two hands with the same cards have the same boosted counts, as a bag. */
  lemma {:induction false} MixedBag(a: string, b: string)
    requires multiset(a) == multiset(b) && 'J' in a && 'J' in b
    requires Others(a) != [] && Others(b) != []
    requires forall c :: c in Others(a) <==> c in Others(b)
    ensures multiset(Boosted(a)) == multiset(Boosted(b))
  {
    var m := multiset(a);
    WithoutNoDup(Distinct(a), 'J');
    WithoutNoDup(Distinct(b), 'J');
    CountsOfPermutation(m, Others(a), Others(b));
    JoinedPermutation(CountsOf(m, Others(a)), CountsOf(m, Others(b)), m['J']);
    BoostedJoined(a);
    BoostedJoined(b);
  }

  /** Rearranging the cards of a hand does not change its boosted counts, as a bag. */
  lemma {:induction false} BoostedPermutation(a: string, b: string)
    requires multiset(a) == multiset(b)
    ensures multiset(Boosted(a)) == multiset(Boosted(b))
  {
    SameKeys(a, b);
    if 'J' !in a {
      CountsOfPermutation(multiset(a), Distinct(a), Distinct(b));
    } else if Others(a) == [] {
      NoKeys(Others(a), Others(b));
    } else {
      if Others(b) == [] {
        NoKeys(Others(b), Others(a));
      }
      MixedBag(a, b);
    }
  }

  /** Rearranging the cards of a hand does not change its joker type. */
  lemma {:induction false} JokerTypeOfPermutation(a: string, b: string)
    requires multiset(a) == multiset(b)
    ensures JokerTypeOf(a) == JokerTypeOf(b)
  {
    BoostedPermutation(a, b);
    SortDescSpec(Boosted(a));
    SortDescSpec(Boosted(b));
    DescendingUnique(SortDesc(Boosted(a)), SortDesc(Boosted(b)));
  }

  // ---------------------------------------------------------------------------
  // __lt__ and part_two
  // ---------------------------------------------------------------------------

  /** The rules of the joker game: joker typing, the joker card order. */
  function JokerRules(): Rules
  {
    Rules(JokerTypeOf, JokerCardOrder())
  }

  /**
   * Between two hands of the same joker type whose cards are all known, a
   * hand led by a joker loses to a hand led by any other card.
   */
  lemma {:induction false} JokerRanksLowest(x: Hand, y: Hand)
    requires Known(JokerCardOrder(), x.cards) && Known(JokerCardOrder(), y.cards)
    requires JokerTypeOf(x.cards) == JokerTypeOf(y.cards)
    requires x.cards != [] && y.cards != [] && x.cards[0] == 'J' && y.cards[0] != 'J'
    ensures LessThan(JokerRules(), x, y) == Success(true)
  {
    var order := JokerCardOrder();
    JokerCardOrderSpec();
    LessThanSpec(JokerRules(), x, y);
    var rx, ry := Ranks(order, x.cards), Ranks(order, y.cards);
    assert rx[0] == 0 && ry[0] == order[y.cards[0]] != 0;
    assert LexLess(rx, ry);
  }

  /** part_two */
  function PartTwo(hands: seq<Hand>): Outcome<int>
  {
    Winnings(JokerRules(), hands)
  }

  /**
   * part_two weights the hands in ascending order of (joker type, joker
   * ranks), and does not depend on the order the hands are listed in as
   * long as no two different hands tie.
   */
  lemma {:induction false} PartTwoSpec(a: seq<Hand>, b: seq<Hand>)
    requires multiset(a) == multiset(b)
    requires KeysDistinct(h => Key(JokerRules(), h), a)
    ensures Ascending(h => Key(JokerRules(), h), SortHands(JokerRules(), a))
    ensures multiset(SortHands(JokerRules(), a)) == multiset(a)
    ensures PartTwo(a) == PartTwo(b)
  {
    WinningsSpec(JokerRules(), a, b);
  }
}
