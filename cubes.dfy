/**
 * Cube conundrum (02/02.py): a game is a list of draws, each draw a count of
 * cubes per colour.  A game is possible with a given bag when every draw fits
 * in the bag; the power of a game is the product of the fewest cubes of each
 * colour that make it possible.  `consume_re` splits a text into consecutive
 * matches of a pattern, the pattern itself being a parameter here.
 */
module Cubes {

  import opened Failures

  datatype Colour = Red | Green | Blue

  /** One handful of cubes: how many of each colour it showed. */
  type Draw = map<Colour, nat>

  datatype Game = Game(number: nat, draws: seq<Draw>)

  /** A bag's contents; every colour has an entry (a missing one raises KeyError). */
  type Bag = map<Colour, nat>

  predicate Complete(bag: Bag)
  {
    forall c: Colour :: c in bag
  }

  /** The part-one bag: 12 red, 13 green and 14 blue cubes. */
  function PartOneBag(): (bag: Bag)
    ensures Complete(bag)
  {
    var bag := map[Red := 12, Green := 13, Blue := 14];
    assert forall c: Colour :: c in bag by {
      forall c: Colour
        ensures c in bag
      {
        assert c.Red? || c.Green? || c.Blue?;
      }
    }
    bag
  }

  // ---------------------------------------------------------------------------
  // consume_re
  // ---------------------------------------------------------------------------

  /**
   * A pattern anchored at the start of a text: the length of the match, or
   * None when the text does not start with a match.
   */
  type Pattern = string -> Option<nat>

  /**
   * On a non-empty text, every match of the pattern consumes at least one
   * character and no more than the text holds (the empty text is never
   * matched against, since the consumer stops there).
   */
  predicate Advances(pattern: Pattern, s: string)
  {
    s != [] && pattern(s).Some? ==> 0 < pattern(s).value <= |s|
  }

  /** The consecutive matches of the pattern covering the text, or ValueError at the first miss. */
  function Matches(pattern: Pattern, s: string): Outcome<seq<string>>
    requires forall t :: Advances(pattern, t)
    decreases |s|
  {
    if s == [] then Success([])
    else
      assert Advances(pattern, s);
      match pattern(s)
      case None => Failure(ValueError)
      case Some(end) =>
        match Matches(pattern, s[end..])
        case Success(rest) => Success([s[..end]] + rest)
        case Failure(e) => Failure(e)
  }

  function Concat(pieces: seq<string>): string
  {
    if pieces == [] then [] else pieces[0] + Concat(pieces[1..])
  }

  /** consume_re: repeatedly match at the start of the remaining text and cut the match off. */
  method ConsumeRe(pattern: Pattern, s: string) returns (r: Outcome<seq<string>>)
    requires forall t :: Advances(pattern, t)
    ensures r == Matches(pattern, s)
  {
    var rest := s;
    var found: seq<string> := [];
    assert Matches(pattern, s).Success? ==> found + Matches(pattern, s).value == Matches(pattern, s).value;
    while rest != []
      invariant Concat(found) + rest == s
      invariant Pending(pattern, s, found, rest)
      decreases |rest|
    {
      var m := pattern(rest);
      if m.None? {
        MatchesMiss(pattern, s, found, rest);
        return Failure(ValueError);
      }
      var end := m.value;
      MatchesStep(pattern, s, found, rest, end);
      found := found + [rest[..end]];
      rest := rest[end..];
    }
    assert found + [] == found;
    r := Success(found);
  }

  /** What is left of the matches of s once the pieces found are cut off: the matches of the rest. */
  predicate Pending(pattern: Pattern, s: string, found: seq<string>, rest: string)
    requires forall t :: Advances(pattern, t)
  {
    Matches(pattern, s) == match Matches(pattern, rest)
      case Success(more) => Success(found + more)
      case Failure(e) => Failure(e)
  }

  /** A miss at the start of the rest is a miss for the whole text. */
  lemma {:induction false} MatchesMiss(pattern: Pattern, s: string, found: seq<string>, rest: string)
    requires forall t :: Advances(pattern, t)
    requires rest != [] && pattern(rest).None? && Pending(pattern, s, found, rest)
    ensures Matches(pattern, s) == Failure(ValueError)
  {
  }

  /** Cutting off one match keeps the matches still to come in step. */
  lemma {:induction false} MatchesStep(pattern: Pattern, s: string, found: seq<string>, rest: string, end: nat)
    requires forall t :: Advances(pattern, t)
    requires rest != [] && pattern(rest) == Some(end) && Pending(pattern, s, found, rest)
    requires Concat(found) + rest == s
    ensures 0 < end <= |rest|
    ensures Pending(pattern, s, found + [rest[..end]], rest[end..])
    ensures Concat(found + [rest[..end]]) + rest[end..] == s
  {
    assert Advances(pattern, rest);
    ConcatAppend(found, rest[..end]);
    assert rest[..end] + rest[end..] == rest;
    if Matches(pattern, rest[end..]).Success? {
      var more := Matches(pattern, rest[end..]).value;
      assert found + ([rest[..end]] + more) == (found + [rest[..end]]) + more;
    }
  }

  lemma {:induction false} ConcatAppend(pieces: seq<string>, last: string)
    ensures Concat(pieces + [last]) == Concat(pieces) + last
  {
    if pieces != [] {
      assert (pieces + [last])[1..] == pieces[1..] + [last];
      ConcatAppend(pieces[1..], last);
    }
  }

  /** The matches, when found, are non-empty and put back together give the text. */
  lemma {:induction false} MatchesCover(pattern: Pattern, s: string)
    requires forall t :: Advances(pattern, t)
    ensures Matches(pattern, s).Success? ==>
      Concat(Matches(pattern, s).value) == s && forall k | 0 <= k < |Matches(pattern, s).value| :: Matches(pattern, s).value[k] != []
    decreases |s|
  {
    if s != [] && pattern(s).Some? {
      assert Advances(pattern, s);
      var end := pattern(s).value;
      MatchesCover(pattern, s[end..]);
      if Matches(pattern, s[end..]).Success? {
        var rest := Matches(pattern, s[end..]).value;
        assert ([s[..end]] + rest)[1..] == rest;
        assert s[..end] + s[end..] == s;
      }
    }
  }

  // ---------------------------------------------------------------------------
  // is_possible and power
  // ---------------------------------------------------------------------------

  /** How many cubes of colour c the draw showed (none when the colour is absent). */
  function Shown(draw: Draw, c: Colour): nat
  {
    if c in draw then draw[c] else 0
  }

  /** is_possible: every colour of every draw is within the bag's count. */
  predicate IsPossible(game: Game, bag: Bag)
    requires Complete(bag)
  {
    forall i, c | 0 <= i < |game.draws| && c in game.draws[i] :: bag[c] >= game.draws[i][c]
  }

  /** The most cubes of colour c shown by any of the draws (0 when none is shown). */
  function MostShown(draws: seq<Draw>, c: Colour): (m: nat)
    ensures forall i | 0 <= i < |draws| :: Shown(draws[i], c) <= m
    ensures m == 0 || exists i | 0 <= i < |draws| :: Shown(draws[i], c) == m
  {
    if draws == [] then 0
    else
      var before := MostShown(draws[..|draws| - 1], c);
      var last := Shown(draws[|draws| - 1], c);
      assert forall i | 0 <= i < |draws| - 1 :: draws[..|draws| - 1][i] == draws[i];
      if before < last then last else before
  }

  /** The fewest cubes of each colour that make the game possible. */
  function Fewest(game: Game): (bag: Bag)
    ensures Complete(bag)
  {
    map c: Colour | true :: MostShown(game.draws, c)
  }

  /** Extending the draws by one draw raises the most shown to that draw's count if larger. */
  lemma {:induction false} MostShownStep(draws: seq<Draw>, i: nat, c: Colour)
    requires i < |draws|
    ensures MostShown(draws[..i + 1], c) == Max(MostShown(draws[..i], c), Shown(draws[i], c))
  {
    assert draws[..i + 1][..i] == draws[..i];
  }

  /** reduce(operator.mul, …): the product of the counts. */
  function Product(counts: seq<nat>): nat
  {
    if counts == [] then 1 else counts[0] * Product(counts[1..])
  }

  function Max(a: nat, b: nat): nat
  {
    if a < b then b else a
  }

  /**
   * power: start each colour at zero and raise it to every larger count seen,
   * then multiply the three counts.
   */
  method Power(game: Game) returns (p: nat)
    ensures p == Product([Fewest(game)[Red], Fewest(game)[Green], Fewest(game)[Blue]])
  {
    var draws := game.draws;
    var counts: map<Colour, nat> := map[Red := 0, Green := 0, Blue := 0];
    assert draws[..0] == [];
    for i := 0 to |draws|
      invariant counts.Keys == {Red, Green, Blue}
      invariant forall c | c in counts :: counts[c] == MostShown(draws[..i], c)
    {
      counts := RaiseCounts(counts, draws[i]);
      forall c | c in counts
        ensures counts[c] == MostShown(draws[..i + 1], c)
      {
        MostShownStep(draws, i, c);
      }
    }
    assert draws[..|draws|] == draws;
    p := Product([counts[Red], counts[Green], counts[Blue]]);
  }

  /** The loop over one draw's colours: raise each colour's count to the draw's count if larger. */
  method RaiseCounts(counts: map<Colour, nat>, draw: Draw) returns (raised: map<Colour, nat>)
    requires counts.Keys == {Red, Green, Blue}
    ensures raised.Keys == {Red, Green, Blue}
    ensures forall c | c in raised :: raised[c] == Max(counts[c], Shown(draw, c))
  {
    raised := counts;
    var todo := draw.Keys;
    while todo != {}
      invariant todo <= draw.Keys
      invariant raised.Keys == {Red, Green, Blue}
      invariant forall c | c in raised ::
        raised[c] == if c in todo then counts[c] else Max(counts[c], Shown(draw, c))
      decreases todo
    {
      var c :| c in todo;
      assert c == Red || c == Green || c == Blue;
      if raised[c] < draw[c] {
        raised := raised[c := draw[c]];
      }
      todo := todo - {c};
    }
  }

  /** A game is possible with a bag exactly when the fewest cubes it needs fit in the bag. */
  lemma {:induction false} PossibleIffFewestFits(game: Game, bag: Bag)
    requires Complete(bag)
    ensures IsPossible(game, bag) <==> forall c: Colour :: Fewest(game)[c] <= bag[c]
  {
    if IsPossible(game, bag) {
      forall c: Colour
        ensures Fewest(game)[c] <= bag[c]
      {
        var m := MostShown(game.draws, c);
        if m != 0 {
          var i :| 0 <= i < |game.draws| && Shown(game.draws[i], c) == m;
          assert c in game.draws[i];
        }
      }
    }
    if forall c: Colour :: Fewest(game)[c] <= bag[c] {
      forall i, c | 0 <= i < |game.draws| && c in game.draws[i]
        ensures bag[c] >= game.draws[i][c]
      {
        assert Shown(game.draws[i], c) <= MostShown(game.draws, c);
      }
    }
  }

  // ---------------------------------------------------------------------------
  // The two answers
  // ---------------------------------------------------------------------------

  /** part_one: the sum of the numbers of the games possible with the part-one bag. */
  function PossibleTotal(games: seq<Game>): nat
  {
    if games == [] then 0
    else
      var last := games[|games| - 1];
      PossibleTotal(games[..|games| - 1]) + (if IsPossible(last, PartOneBag()) then last.number else 0)
  }

  function NumberTotal(games: seq<Game>): nat
  {
    if games == [] then 0 else NumberTotal(games[..|games| - 1]) + games[|games| - 1].number
  }

  /**
   * The part-one total never exceeds the sum of all game numbers, reaches it
   * exactly when every game is possible (games being numbered from 1), and
   * is zero when no game is.
   */
  lemma {:induction false} PossibleTotalBounds(games: seq<Game>)
    ensures PossibleTotal(games) <= NumberTotal(games)
    ensures (forall i | 0 <= i < |games| :: IsPossible(games[i], PartOneBag())) ==> PossibleTotal(games) == NumberTotal(games)
    ensures (forall i | 0 <= i < |games| :: games[i].number > 0) ==>
      (PossibleTotal(games) == NumberTotal(games) <==> forall i | 0 <= i < |games| :: IsPossible(games[i], PartOneBag()))
    ensures (forall i | 0 <= i < |games| :: !IsPossible(games[i], PartOneBag())) ==> PossibleTotal(games) == 0
  {
    if games != [] {
      var init := games[..|games| - 1];
      PossibleTotalBounds(init);
      assert forall i | 0 <= i < |init| :: init[i] == games[i];
      if (forall i | 0 <= i < |games| :: games[i].number > 0) && PossibleTotal(games) == NumberTotal(games) {
        assert IsPossible(games[|games| - 1], PartOneBag());
      }
    }
  }
}
