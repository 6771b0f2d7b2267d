/**
 * Haunted Wasteland (08/08.py): a list of left/right turns is walked over
 * and over through a table of forks.  Part one counts the steps from AAA
 * to the first ZZZ; part two sends a ghost from every node ending in A and
 * combines, with lcm, the first step at which each ghost stands on a node
 * ending in Z at the end of a full round of turns.
 *
 * The dictionary of forks is a map together with its keys in insertion
 * order, which is the order in which part two takes the ghosts.
 */
module Wasteland {

  import opened Failures
  import opened Arith

  // ---------------------------------------------------------------------------
  // The turns
  // ---------------------------------------------------------------------------

  /** {'L': 0, 'R': 1}.__getitem__ */
  function Turn(c: char): Outcome<nat>
  {
    if c == 'L' then Success(0) else if c == 'R' then Success(1) else Failure(KeyError)
  }

  /** The turns of the first line, KeyError as soon as a character is neither L nor R. */
  function EncodeTurns(line: string): Outcome<seq<nat>>
  {
    if line == [] then Success([])
    else if Turn(line[0]).Failure? then Failure(KeyError)
    else if EncodeTurns(line[1..]).Failure? then Failure(KeyError)
    else Success([Turn(line[0]).value] + EncodeTurns(line[1..]).value)
  }

  /** The letter of a turn: 0 is L, 1 is R. */
  function Letter(t: nat): char
  {
    if t == 0 then 'L' else 'R'
  }

  function DecodeTurns(turns: seq<nat>): (line: string)
    ensures |line| == |turns| && forall i | 0 <= i < |turns| :: line[i] == Letter(turns[i])
  {
    if turns == [] then [] else [Letter(turns[0])] + DecodeTurns(turns[1..])
  }

  /**
   * The line encodes exactly when each character is L or R; then L becomes
   * 0 and R becomes 1, one turn per character.
   */
  lemma {:induction false} EncodeTurnsSpec(line: string)
    ensures EncodeTurns(line).Success? <==> forall i | 0 <= i < |line| :: line[i] == 'L' || line[i] == 'R'
    ensures EncodeTurns(line).Success? ==>
      var turns := EncodeTurns(line).value;
      |turns| == |line| && forall i | 0 <= i < |line| :: turns[i] == (if line[i] == 'L' then 0 else 1)
  {
    if line != [] {
      EncodeTurnsSpec(line[1..]);
      assert forall i | 1 <= i < |line| :: line[i] == line[1..][i - 1];
    }
  }

  /** Decoding undoes encoding, and encoding undoes decoding for turns 0 and 1. */
  lemma {:induction false} TurnsRoundTrip(line: string, turns: seq<nat>)
    ensures EncodeTurns(line).Success? ==> DecodeTurns(EncodeTurns(line).value) == line
    ensures (forall i | 0 <= i < |turns| :: turns[i] < 2) ==> EncodeTurns(DecodeTurns(turns)) == Success(turns)
  {
    EncodeTurnsSpec(line);
    if forall i | 0 <= i < |turns| :: turns[i] < 2 {
      var line' := DecodeTurns(turns);
      EncodeTurnsSpec(line');
      assert EncodeTurns(line').value == turns;
    }
  }

  // ---------------------------------------------------------------------------
  // navigate
  // ---------------------------------------------------------------------------

  /** A node's pair: the node reached turning left, and turning right. */
  datatype Fork = Fork(left: string, right: string)

  /** nodes[node][turn]: KeyError for a node the table lacks, IndexError for a turn past the pair. */
  function Step(nodes: map<string, Fork>, node: string, turn: nat): Outcome<string>
  {
    if node !in nodes then Failure(KeyError)
    else if turn == 0 then Success(nodes[node].left)
    else if turn == 1 then Success(nodes[node].right)
    else Failure(IndexError)
  }

  /**
   * Where the walk from start is after k steps, taking the turns in order
   * and starting them over at the end: the node navigate yields k-th.
   */
  function Walk(start: string, turns: seq<nat>, nodes: map<string, Fork>, k: nat): Outcome<string>
    requires turns != []
  {
    if k == 0 then Success(start)
    else
      var before := Walk(start, turns, nodes, k - 1);
      if before.Failure? then before else Step(nodes, before.value, turns[(k - 1) % |turns|])
  }

  /** One more step of a walk that stands on node. */
  lemma {:induction false} WalkNext(start: string, turns: seq<nat>, nodes: map<string, Fork>, k: nat, node: string)
    requires turns != [] && Walk(start, turns, nodes, k) == Success(node)
    ensures Walk(start, turns, nodes, k + 1) == Step(nodes, node, turns[k % |turns|])
  {
  }

  /** Once the walk raises, every later step raises the same. */
  lemma {:induction false} WalkStopped(start: string, turns: seq<nat>, nodes: map<string, Fork>, k: nat, j: nat)
    requires turns != [] && k <= j && Walk(start, turns, nodes, k).Failure?
    ensures Walk(start, turns, nodes, j) == Walk(start, turns, nodes, k)
    decreases j
  {
    if j > k {
      WalkStopped(start, turns, nodes, k, j - 1);
    }
  }

  /** Counting one step more moves one place on in the round, back to 0 at its end. */
  lemma {:induction false} ModNext(k: nat, period: nat)
    requires period > 0
    ensures (k + 1) % period == (k % period + 1) % period
  {
    var q, r := k / period, k % period;
    DivMod(k, period);
    if r + 1 < period {
      ModUnique(k + 1, period, q, r + 1);
      ModUnique(r + 1, period, 0, r + 1);
    } else {
      MulAdd(q, 1, period);
      ModUnique(k + 1, period, q + 1, 0);
      ModUnique(r + 1, period, 1, 0);
    }
  }

  lemma {:induction false} ShiftMod(k: nat, x: nat, period: nat)
    requires period > 0 && k % period == 0
    ensures (k + x) % period == x % period
  {
    DivMod(k, period);
    DivMod(x, period);
    MulAdd(k / period, x / period, period);
    ModUnique(k + x, period, k / period + x / period, x % period);
  }

  /**
   * After a whole number of rounds of turns the walk goes on as a fresh
   * walk from where it stands.
   */
  lemma {:induction false} WalkRestart(start: string, turns: seq<nat>, nodes: map<string, Fork>, k: nat, j: nat)
    requires turns != [] && k % |turns| == 0 && Walk(start, turns, nodes, k).Success?
    ensures Walk(start, turns, nodes, k + j) == Walk(Walk(start, turns, nodes, k).value, turns, nodes, j)
    decreases j
  {
    if j > 0 {
      WalkRestart(start, turns, nodes, k, j - 1);
      ShiftMod(k, j - 1, |turns|);
      assert k + j - 1 == k + (j - 1);
    }
  }

  /**
   * If, after some whole rounds, the walk stands on a node from which as
   * many steps lead back to it, then it stands there after every multiple
   * of that many steps.
   */
  lemma {:induction false} WalkRepeats(start: string, turns: seq<nat>, nodes: map<string, Fork>, s: nat, z: string, n: nat)
    requires turns != [] && Divides(|turns|, s)
    requires Walk(start, turns, nodes, s) == Success(z) && Walk(z, turns, nodes, s) == Success(z)
    requires n >= 1
    ensures Walk(start, turns, nodes, s * n) == Success(z)
    decreases n
  {
    if n > 1 {
      WalkRepeats(start, turns, nodes, s, z, n - 1);
      DividesProduct(|turns|, s, n - 1);
      WalkRestart(start, turns, nodes, s * (n - 1), s);
      assert s * (n - 1) + s == s * n;
    }
  }

  /**
   * navigate, run until it has yielded count nodes: the nodes it yields in
   * order, and the exception it raises if it raises first.  With no turns
   * it yields nothing.
   */
  method Navigate(start: string, turns: seq<nat>, nodes: map<string, Fork>, count: nat)
    returns (path: seq<string>, error: Option<Exception>)
    ensures turns == [] ==> path == [] && error == None
    ensures turns != [] ==> |path| <= count && (error == None <==> |path| == count)
    ensures turns != [] ==> forall i | 0 <= i < |path| :: Walk(start, turns, nodes, i + 1) == Success(path[i])
    ensures turns != [] && error.Some? ==> Walk(start, turns, nodes, |path| + 1) == Failure(error.value)
  {
    path, error := [], None;
    if turns == [] {
      return;
    }
    var node := start;
    var i := 0;
    while |path| < count && error == None
      invariant |path| <= count && i == |path| % |turns|
      invariant Walk(start, turns, nodes, |path|) == Success(node)
      invariant forall j | 0 <= j < |path| :: Walk(start, turns, nodes, j + 1) == Success(path[j])
      invariant error.Some? ==> |path| < count && Walk(start, turns, nodes, |path| + 1) == Failure(error.value)
      decreases count - |path|, if error == None then 1 else 0
    {
      var next := Step(nodes, node, turns[i]);
      WalkNext(start, turns, nodes, |path|, node);
      if next.Failure? {
        error := Some(next.error);
      } else {
        node := next.value;
        ModNext(|path|, |turns|);
        path := path + [node];
        i := (i + 1) % |turns|;
      }
    }
  }

  // ---------------------------------------------------------------------------
  // The first step a condition accepts
  // ---------------------------------------------------------------------------

  /** Every step from 1 up to but not including k stood on a node, and accept turned each down. */
  predicate Misses(start: string, turns: seq<nat>, nodes: map<string, Fork>, accept: (nat, string) -> bool, k: nat)
    requires turns != []
  {
    forall j | 1 <= j < k :: Walk(start, turns, nodes, j).Success? && !accept(j, Walk(start, turns, nodes, j).value)
  }

  lemma {:induction false} MissesNext(start: string, turns: seq<nat>, nodes: map<string, Fork>, accept: (nat, string) -> bool, k: nat, node: string)
    requires turns != [] && Misses(start, turns, nodes, accept, k)
    requires Walk(start, turns, nodes, k) == Success(node) && !accept(k, node)
    ensures Misses(start, turns, nodes, accept, k + 1)
  {
  }

  /**
   * next((step, node) for step, node in enumerate(navigate(...), start=1) if
   * accept(step, node)), followed for at most fuel steps: the first step
   * accepted, with its node; or the exception navigate raises before it,
   * StopIteration when there are no turns.
   */
  method FirstMatch(start: string, turns: seq<nat>, nodes: map<string, Fork>, accept: (nat, string) -> bool, fuel: nat)
    returns (r: Run<(nat, string)>)
    ensures turns == [] <==> r == Raised(StopIteration)
    ensures turns != [] && r.Done? ==>
      var (k, node) := r.value;
      1 <= k <= fuel && Walk(start, turns, nodes, k) == Success(node) && accept(k, node)
      && Misses(start, turns, nodes, accept, k)
    ensures turns != [] && r.Raised? ==>
      exists k | 1 <= k <= fuel :: Walk(start, turns, nodes, k) == Failure(r.error) && Misses(start, turns, nodes, accept, k)
    ensures turns != [] && r.Unfinished? ==> Misses(start, turns, nodes, accept, fuel + 1)
  {
    if turns == [] {
      return Raised(StopIteration);
    }
    var node := start;
    var step := 0;
    var i := 0;
    while step < fuel
      invariant step <= fuel && i == step % |turns|
      invariant Walk(start, turns, nodes, step) == Success(node)
      invariant Misses(start, turns, nodes, accept, step + 1)
    {
      var next := Step(nodes, node, turns[i]);
      WalkNext(start, turns, nodes, step, node);
      step := step + 1;
      if next.Failure? {
        return Raised(next.error);
      }
      node := next.value;
      if accept(step, node) {
        return Done((step, node));
      }
      MissesNext(start, turns, nodes, accept, step, node);
      ModNext(step - 1, |turns|);
      i := (i + 1) % |turns|;
    }
    return Unfinished;
  }

  /**
   * part_one, within fuel steps: the least step at which the walk from AAA
   * stands on ZZZ.
   */
  method PartOne(turns: seq<nat>, nodes: map<string, Fork>, fuel: nat) returns (r: Run<nat>)
    ensures turns == [] <==> r == Raised(StopIteration)
    ensures turns != [] && r.Done? ==>
      1 <= r.value <= fuel && Walk("AAA", turns, nodes, r.value) == Success("ZZZ")
      && forall j | 1 <= j < r.value :: Walk("AAA", turns, nodes, j).Success? && Walk("AAA", turns, nodes, j) != Success("ZZZ")
    ensures turns != [] && r.Raised? ==> exists k | 1 <= k <= fuel ::
      Walk("AAA", turns, nodes, k) == Failure(r.error)
      && forall j | 1 <= j < k :: Walk("AAA", turns, nodes, j).Success? && Walk("AAA", turns, nodes, j) != Success("ZZZ")
    ensures turns != [] && r.Unfinished? ==>
      forall j | 1 <= j <= fuel :: Walk("AAA", turns, nodes, j).Success? && Walk("AAA", turns, nodes, j) != Success("ZZZ")
  {
    var found := FirstMatch("AAA", turns, nodes, (step: nat, node: string) => node == "ZZZ", fuel);
    match found
    case Done((step, _)) => r := Done(step);
    case Raised(e) => r := Raised(e);
    case Unfinished => r := Unfinished;
  }

  // ---------------------------------------------------------------------------
  // part_two
  // ---------------------------------------------------------------------------

  predicate EndsWith(name: string, c: char)
  {
    |name| > 0 && name[|name| - 1] == c
  }

  /** The keys of the table ending in c, in key order. */
  function Named(names: seq<string>, c: char): (r: seq<string>)
    ensures forall n :: n in r <==> n in names && EndsWith(n, c)
  {
    if names == [] then []
    else if EndsWith(names[0], c) then [names[0]] + Named(names[1..], c)
    else Named(names[1..], c)
  }

  /** The nodes ghosts end on. */
  function Ends(names: seq<string>): (ends: set<string>)
    ensures forall n :: n in ends <==> n in names && EndsWith(n, 'Z')
  {
    set n | n in names && EndsWith(n, 'Z')
  }

  /** The condition of part two: a node ending in Z, after a whole number of rounds of turns. */
  function AtEnd(ends: set<string>, period: nat): (nat, string) -> bool
  {
    (step: nat, node: string) => node in ends && period > 0 && step % period == 0
  }

  /**
   * After r rounds of turns the ghost from start first stands on an end
   * node at the end of a round, within fuel steps.
   */
  predicate FirstEnd(start: string, turns: seq<nat>, nodes: map<string, Fork>, ends: set<string>, fuel: nat, r: nat)
    requires turns != []
  {
    var steps := r * |turns|;
    r >= 1 && steps <= fuel
    && Walk(start, turns, nodes, steps).Success? && Walk(start, turns, nodes, steps).value in ends
    && Misses(start, turns, nodes, AtEnd(ends, |turns|), steps)
  }

  /**
   * part_two, each ghost followed for at most fuel steps: for each node
   * ending in A, the number of rounds of turns until its ghost first stands
   * on a node ending in Z at the end of a round; the answer is their lcm
   * times the number of turns.
   */
  method PartTwo(turns: seq<nat>, names: seq<string>, nodes: map<string, Fork>, fuel: nat)
    returns (r: Run<nat>, rounds: seq<nat>)
    requires forall n :: n in names <==> n in nodes
    ensures turns == [] && Named(names, 'A') != [] ==> r == Raised(StopIteration)
    ensures r.Done? ==> |rounds| == |Named(names, 'A')| && r.value == LcmAll(rounds) * |turns|
    ensures r.Done? && turns != [] ==>
      forall i | 0 <= i < |rounds| :: FirstEnd(Named(names, 'A')[i], turns, nodes, Ends(names), fuel, rounds[i])
    ensures !r.Done? ==> |rounds| < |Named(names, 'A')|
    ensures !r.Done? && turns != [] ==>
      forall i | 0 <= i < |rounds| :: FirstEnd(Named(names, 'A')[i], turns, nodes, Ends(names), fuel, rounds[i])
    ensures turns != [] && r.Raised? ==>
      var start := Named(names, 'A')[|rounds|];
      exists k | 1 <= k <= fuel ::
        Walk(start, turns, nodes, k) == Failure(r.error) && Misses(start, turns, nodes, AtEnd(Ends(names), |turns|), k)
    ensures turns != [] && r.Unfinished? ==>
      Misses(Named(names, 'A')[|rounds|], turns, nodes, AtEnd(Ends(names), |turns|), fuel + 1)
  {
    var starts := Named(names, 'A');
    var ends := Ends(names);
    var accept := AtEnd(ends, |turns|);
    rounds := [];
    for i := 0 to |starts|
      invariant |rounds| == i && (turns != [] || i == 0)
      invariant turns != [] ==> forall j | 0 <= j < i :: FirstEnd(starts[j], turns, nodes, ends, fuel, rounds[j])
    {
      var found := FirstMatch(starts[i], turns, nodes, accept, fuel);
      match found
      case Raised(e) =>
        return Raised(e), rounds;
      case Unfinished =>
        return Unfinished, rounds;
      case Done((steps, node)) =>
        FoundEnd(starts[i], turns, nodes, ends, fuel, steps, node);
        rounds := rounds + [steps / |turns|];
    }
    r := Done(LcmAll(rounds) * |turns|);
  }

  /** The step FirstMatch finds for a ghost is a whole number of rounds, the first to end on an end node. */
  lemma {:induction false} FoundEnd(start: string, turns: seq<nat>, nodes: map<string, Fork>, ends: set<string>, fuel: nat, steps: nat, node: string)
    requires turns != [] && 1 <= steps <= fuel && Walk(start, turns, nodes, steps) == Success(node)
    requires AtEnd(ends, |turns|)(steps, node) && Misses(start, turns, nodes, AtEnd(ends, |turns|), steps)
    ensures FirstEnd(start, turns, nodes, ends, fuel, steps / |turns|)
  {
    RoundsOf(steps, |turns|);
  }

  /** A positive multiple of the period is a positive number of whole periods. */
  lemma {:induction false} RoundsOf(steps: nat, period: nat)
    requires period > 0 && steps >= 1 && steps % period == 0
    ensures steps / period >= 1 && (steps / period) * period == steps
  {
  }

  /**
   * What part two's answer means: when every ghost, once on its end node,
   * comes back to it after as many steps again, then at the answer every
   * ghost stands on an end node; and the answer divides every common
   * multiple of the ghosts' step counts that is a whole number of rounds.
   */
  lemma {:induction false} PartTwoMeaning(turns: seq<nat>, names: seq<string>, nodes: map<string, Fork>, rounds: seq<nat>, answer: nat)
    requires turns != [] && |rounds| == |Named(names, 'A')| && answer == LcmAll(rounds) * |turns|
    requires forall i | 0 <= i < |rounds| ::
      var start, steps := Named(names, 'A')[i], rounds[i] * |turns|;
      rounds[i] >= 1 && Walk(start, turns, nodes, steps).Success?
      && Walk(Walk(start, turns, nodes, steps).value, turns, nodes, steps) == Walk(start, turns, nodes, steps)
    ensures answer >= 1
    ensures forall i | 0 <= i < |rounds| ::
      Walk(Named(names, 'A')[i], turns, nodes, answer) == Walk(Named(names, 'A')[i], turns, nodes, rounds[i] * |turns|)
    ensures forall m: nat | Divides(|turns|, m) && (forall i | 0 <= i < |rounds| :: Divides(rounds[i] * |turns|, m)) ::
      Divides(answer, m)
  {
    var period := |turns|;
    LcmAllMultiple(rounds);
    MultipleSize(LcmAll(rounds), period);
    forall i | 0 <= i < |rounds|
      ensures Walk(Named(names, 'A')[i], turns, nodes, answer) == Walk(Named(names, 'A')[i], turns, nodes, rounds[i] * period)
    {
      var start, steps := Named(names, 'A')[i], rounds[i] * period;
      GhostAtAnswer(start, turns, nodes, rounds[i], LcmAll(rounds), answer);
    }
    forall m: nat | Divides(period, m) && (forall i | 0 <= i < |rounds| :: Divides(rounds[i] * period, m))
      ensures Divides(answer, m)
    {
      forall i | 0 <= i < |rounds|
        ensures rounds[i] > 0 && Divides(rounds[i], m / period)
      {
        RoundsDivide(rounds[i], period, m);
      }
      LcmAllLeast(rounds, m / period);
      ScaleDivides(LcmAll(rounds), period, m);
    }
  }

  /**
   * A ghost whose end node comes back after c rounds stands on it after
   * any multiple l of c rounds.
   */
  lemma {:induction false} GhostAtAnswer(start: string, turns: seq<nat>, nodes: map<string, Fork>, c: nat, l: nat, answer: nat)
    requires turns != [] && c >= 1 && l >= 1 && Divides(c, l) && answer == l * |turns|
    requires Walk(start, turns, nodes, c * |turns|).Success?
    requires Walk(Walk(start, turns, nodes, c * |turns|).value, turns, nodes, c * |turns|) == Walk(start, turns, nodes, c * |turns|)
    ensures Walk(start, turns, nodes, answer) == Walk(start, turns, nodes, c * |turns|)
  {
    var period, steps := |turns|, c * |turns|;
    var n := l / c;
    assert l == c * n;
    assert answer == steps * n by {
      assert l * period == (c * n) * period == (c * period) * n;
    }
    MultipleDivides(period, c);
    assert Divides(period, steps) by {
      assert steps == period * c;
    }
    WalkRepeats(start, turns, nodes, steps, Walk(start, turns, nodes, steps).value, n);
  }

  /** If c whole periods divide m, then c divides the number of periods in m. */
  lemma {:induction false} RoundsDivide(c: nat, period: nat, m: nat)
    requires period > 0 && Divides(period, m) && Divides(c * period, m)
    ensures Divides(c, m / period)
  {
    var k := m / (c * period);
    assert m == c * period * k;
    assert m / period == c * k by {
      ModUnique(m, period, c * k, 0);
    }
    MultipleDivides(c, k);
  }

  /** If l divides the number of periods in m, then l periods divide m. */
  lemma {:induction false} ScaleDivides(l: nat, period: nat, m: nat)
    requires period > 0 && Divides(period, m) && Divides(l, m / period)
    ensures Divides(l * period, m)
  {
    var k := (m / period) / l;
    assert m == period * (m / period);
    assert m / period == l * k;
    assert m == (l * period) * k;
    MultipleDivides(l * period, k);
  }
}
