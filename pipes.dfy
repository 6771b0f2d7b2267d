/**
 * Pipe Maze (10/10.py): a grid of pipe tiles holds one loop through the
 * start cell S.  The start tile is worked out from the neighbours that
 * connect to it, the loop is walked from the start until it comes back,
 * part one answers half the loop's length and part two counts the cells
 * the loop encloses by the parity of the loop's crossings to their left.
 */
module Pipes {

  import opened Failures

  // ---------------------------------------------------------------------------
  // Direction
  // ---------------------------------------------------------------------------

  datatype Direction = Up | Down | Left | Right

  /** A cell of the maze as (row, column). */
  type Location = (int, int)

  const AllDirections: set<Direction> := {Up, Down, Left, Right}

  /** The row and column a direction moves by. */
  function Offset(d: Direction): (int, int)
  {
    match d
    case Up => (-1, 0)
    case Down => (1, 0)
    case Left => (0, -1)
    case Right => (0, 1)
  }

  /** Direction.step: the neighbouring location in direction d. */
  function Step(d: Direction, loc: Location): Location
  {
    (loc.0 + Offset(d).0, loc.1 + Offset(d).1)
  }

  /** Direction.flipped: the direction moving the opposite way. */
  function Flipped(d: Direction): (f: Direction)
    ensures f != d && Offset(f) == (-Offset(d).0, -Offset(d).1)
  {
    match d
    case Up => Down
    case Down => Up
    case Left => Right
    case Right => Left
  }

  /** Flipping twice gives the direction back. */
  lemma {:induction false} FlippedInvolution(d: Direction)
    ensures Flipped(Flipped(d)) == d
  {
  }

  /** A step back the opposite way returns to where the step began. */
  lemma {:induction false} StepBack(d: Direction, loc: Location)
    ensures Step(Flipped(d), Step(d, loc)) == loc
  {
  }

  /** Every step changes the parity of row plus column. */
  lemma {:induction false} StepParity(d: Direction, loc: Location)
    ensures (Step(d, loc).0 + Step(d, loc).1) % 2 == (loc.0 + loc.1 + 1) % 2
  {
  }

  // ---------------------------------------------------------------------------
  // The tiles
  // ---------------------------------------------------------------------------

  /** transitions: the two directions each pipe tile connects. */
  const Transitions: map<char, set<Direction>> := map[
    '-' := {Left, Right},
    '|' := {Up, Down},
    'J' := {Up, Left},
    'L' := {Up, Right},
    '7' := {Down, Left},
    'F' := {Down, Right}
  ]

  /** The tiles in the order the table lists them. */
  const TileOrder: seq<char> := ['-', '|', 'J', 'L', '7', 'F']

  /** A table of departures: for each tile, the direction of arrival mapped to the direction of departure. */
  type Departures = map<char, map<Direction, Direction>>

  /** What one tile of transitions_from_next holds: moving into the tile against one connection leaves by the other. */
  function Through(d1: Direction, d2: Direction): map<Direction, Direction>
  {
    map[Flipped(d1) := d2, Flipped(d2) := d1]
  }

  /**
   * transitions_from_next: for each tile, the direction of arrival mapped to
   * the direction of departure, built from the tile's set of directions
   * taken apart into a pair.
   */
  const TransitionsFromNext: Departures := map[
    '-' := Through(Left, Right),
    '|' := Through(Up, Down),
    'J' := Through(Up, Left),
    'L' := Through(Up, Right),
    '7' := Through(Down, Left),
    'F' := Through(Down, Right)
  ]

  /** The table order lists each tile once. */
  lemma {:induction false} TileOrderListsTiles()
    ensures forall t :: t in TileOrder <==> t in Transitions
  {
  }

  /** Whichever order a set is taken apart in, the departures are the same. */
  lemma {:induction false} ThroughSymmetric(d1: Direction, d2: Direction)
    requires d1 != d2
    ensures Through(d1, d2) == Through(d2, d1)
  {
  }

  /** Every tile connects exactly two directions. */
  lemma {:induction false} TilesConnectTwo(t: char)
    requires t in Transitions
    ensures |Transitions[t]| == 2
  {
  }

  /** No two tiles connect the same directions. */
  lemma {:induction false} TilesDistinct(t: char, u: char)
    requires t in Transitions && u in Transitions && t != u
    ensures Transitions[t] != Transitions[u]
  {
    if t == '-' {
      assert Up !in Transitions[t];
    } else if t == '|' {
      assert Left !in Transitions[t];
    } else if t == 'J' {
      assert Down !in Transitions[t] && Right !in Transitions[t];
    } else if t == 'L' {
      assert Down !in Transitions[t] && Left !in Transitions[t];
    } else if t == '7' {
      assert Up !in Transitions[t] && Right !in Transitions[t];
    } else {
      assert Up !in Transitions[t] && Left !in Transitions[t];
    }
  }

  /** Any two different directions are the connections of some tile. */
  lemma {:induction false} PairTile(a: Direction, b: Direction) returns (t: char)
    requires a != b
    ensures t in Transitions && Transitions[t] == {a, b}
  {
    t := match (a, b)
      case (Left, Right) => '-'
      case (Right, Left) => '-'
      case (Up, Down) => '|'
      case (Down, Up) => '|'
      case (Up, Left) => 'J'
      case (Left, Up) => 'J'
      case (Up, Right) => 'L'
      case (Right, Up) => 'L'
      case (Down, Left) => '7'
      case (Left, Down) => '7'
      case (Down, Right) => 'F'
      case _ => 'F';
  }

  /** A set of directions is some tile's exactly when it has two members. */
  lemma {:induction false} TileForEveryPair(dirs: set<Direction>)
    ensures (exists t :: t in Transitions && Transitions[t] == dirs) <==> |dirs| == 2
  {
    if |dirs| == 2 {
      var a :| a in dirs;
      assert |dirs - {a}| == 1;
      var b :| b in dirs - {a};
      assert dirs == {a, b} by {
        assert |dirs - {a, b}| == 0;
      }
      var t := PairTile(a, b);
    }
    forall t | t in Transitions && Transitions[t] == dirs
      ensures |dirs| == 2
    {
      TilesConnectTwo(t);
    }
  }

  /**
   * The direction a walk leaves a tile by when it moves into the tile in
   * direction d; KeyError when the cell is no pipe or does not connect back.
   */
  function Exit(table: Departures, tile: char, d: Direction): Outcome<Direction>
  {
    if tile !in table then Failure(KeyError)
    else if d !in table[tile] then Failure(KeyError)
    else Success(table[tile][d])
  }

  /**
   * Moving into a tile in direction d goes on exactly when the tile connects
   * back the opposite way, and then leaves by the tile's other connection.
   */
  lemma {:induction false} ExitSpec(tile: char, d: Direction)
    ensures Exit(TransitionsFromNext, tile, d).Success? <==> tile in Transitions && Flipped(d) in Transitions[tile]
    ensures Exit(TransitionsFromNext, tile, d).Failure? ==> Exit(TransitionsFromNext, tile, d).error == KeyError
    ensures Exit(TransitionsFromNext, tile, d).Success? ==>
      var e := Exit(TransitionsFromNext, tile, d).value; e != Flipped(d) && Transitions[tile] == {Flipped(d), e}
  {
    if tile == '-' {
      ThroughSpec(tile, Left, Right, d);
    } else if tile == '|' {
      ThroughSpec(tile, Up, Down, d);
    } else if tile == 'J' {
      ThroughSpec(tile, Up, Left, d);
    } else if tile == 'L' {
      ThroughSpec(tile, Up, Right, d);
    } else if tile == '7' {
      ThroughSpec(tile, Down, Left, d);
    } else if tile == 'F' {
      ThroughSpec(tile, Down, Right, d);
    }
  }

  /** The departures of a tile connecting d1 and d2. */
  lemma {:induction false} ThroughSpec(tile: char, d1: Direction, d2: Direction, d: Direction)
    requires d1 != d2 && tile in Transitions && Transitions[tile] == {d1, d2}
    requires tile in TransitionsFromNext && TransitionsFromNext[tile] == Through(d1, d2)
    ensures Exit(TransitionsFromNext, tile, d).Success? <==> Flipped(d) in Transitions[tile]
    ensures Exit(TransitionsFromNext, tile, d).Failure? ==> Exit(TransitionsFromNext, tile, d).error == KeyError
    ensures Exit(TransitionsFromNext, tile, d).Success? ==>
      var e := Exit(TransitionsFromNext, tile, d).value; e != Flipped(d) && Transitions[tile] == {Flipped(d), e}
  {
    FlippedInvolution(d1);
    FlippedInvolution(d2);
    FlippedInvolution(d);
  }

  // ---------------------------------------------------------------------------
  // The maze
  // ---------------------------------------------------------------------------

  /** The maze is a two-dimensional array: every row has the same width. */
  predicate Rectangular(maze: seq<seq<char>>)
  {
    forall i, j | 0 <= i < |maze| && 0 <= j < |maze| :: |maze[i]| == |maze[j]|
  }

  predicate InBounds(maze: seq<seq<char>>, loc: Location)
  {
    0 <= loc.0 < |maze| && 0 <= loc.1 < |maze[loc.0]|
  }

  predicate AllInBounds(maze: seq<seq<char>>, cells: seq<Location>)
  {
    forall loc | loc in cells :: InBounds(maze, loc)
  }

  /** maze[loc]; IndexError outside the maze. */
  function At(maze: seq<seq<char>>, loc: Location): (r: Outcome<char>)
    ensures r.Success? <==> InBounds(maze, loc)
  {
    if InBounds(maze, loc) then Success(maze[loc.0][loc.1]) else Failure(IndexError)
  }

  /** maze[loc] = tile */
  function Place(maze: seq<seq<char>>, loc: Location, tile: char): (placed: seq<seq<char>>)
    requires InBounds(maze, loc)
    ensures |placed| == |maze| && forall i | 0 <= i < |maze| :: |placed[i]| == |maze[i]|
    ensures placed[loc.0][loc.1] == tile
    ensures forall i, j | 0 <= i < |maze| && 0 <= j < |maze[i]| && (i, j) != loc :: placed[i][j] == maze[i][j]
  {
    maze[loc.0 := maze[loc.0][loc.1 := tile]]
  }

  /** Whether cell a comes before cell b reading the maze row by row. */
  predicate Earlier(a: Location, b: Location)
  {
    a.0 < b.0 || (a.0 == b.0 && a.1 < b.1)
  }

  /** The first place of x in s. */
  function FirstIndex(s: seq<char>, x: char): (r: Option<nat>)
    ensures r.Some? ==> r.value < |s| && s[r.value] == x && x !in s[..r.value]
    ensures r.None? ==> x !in s
  {
    if s == [] then None
    else if s[0] == x then Some(0)
    else match FirstIndex(s[1..], x)
      case None => None
      case Some(i) => assert s[..i + 1] == [s[0]] + s[1..][..i]; Some(i + 1)
  }

  /** The first start cell in rows from row onwards. */
  function FindStartFrom(maze: seq<seq<char>>, row: nat): (r: Outcome<Location>)
    requires row <= |maze|
    ensures r.Success? ==>
      var loc := r.value;
      row <= loc.0 && InBounds(maze, loc) && maze[loc.0][loc.1] == 'S'
      && forall i, j | row <= i < |maze| && 0 <= j < |maze[i]| && Earlier((i, j), loc) :: maze[i][j] != 'S'
    ensures r.Failure? ==>
      r.error == IndexError && forall i, j | row <= i < |maze| && 0 <= j < |maze[i]| :: maze[i][j] != 'S'
    decreases |maze| - row
  {
    if row == |maze| then Failure(IndexError)
    else match FirstIndex(maze[row], 'S')
      case Some(j) =>
        assert forall k | 0 <= k < j :: maze[row][..j][k] == maze[row][k];
        Success((row, j))
      case None => FindStartFrom(maze, row + 1)
  }

  /** find_start: the first S reading row by row; IndexError when there is none. */
  function FindStart(maze: seq<seq<char>>): Outcome<Location>
  {
    FindStartFrom(maze, 0)
  }

  // ---------------------------------------------------------------------------
  // classify_start
  // ---------------------------------------------------------------------------

  /** The tiles a neighbour in direction d may hold to count as connecting to the start. */
  function Accepted(d: Direction): set<char>
  {
    match d
    case Up => {'|', 'F', '7'}
    case Left => {'-', 'F', 'L'}
    case Down => {'|', 'J', 'L'}
    case Right => {'-', 'J', '7'}
  }

  /** The accepted tiles of a direction are exactly the tiles connecting back the opposite way. */
  lemma {:induction false} AcceptedConnectsBack(d: Direction, c: char)
    ensures c in Accepted(d) <==> c in Transitions && Flipped(d) in Transitions[c]
  {
  }

  /** The neighbour of loc in direction d is in the maze and its tile connects back to loc. */
  predicate Connects(maze: seq<seq<char>>, loc: Location, d: Direction)
  {
    var n := Step(d, loc);
    InBounds(maze, n) && maze[n.0][n.1] in Transitions && Flipped(d) in Transitions[maze[n.0][n.1]]
  }

  /** The directions whose neighbours connect to loc. */
  function Connecting(maze: seq<seq<char>>, loc: Location): set<Direction>
  {
    set d | d in AllDirections && Connects(maze, loc, d)
  }

  /** Connecting, one direction at a time. */
  lemma {:induction false} ConnectingByDirection(maze: seq<seq<char>>, loc: Location)
    ensures Connecting(maze, loc) ==
      IfConnects(maze, loc, Up) + IfConnects(maze, loc, Left) + IfConnects(maze, loc, Down) + IfConnects(maze, loc, Right)
  {
  }

  /** {d} when the neighbour in direction d connects to loc, else the empty set. */
  function IfConnects(maze: seq<seq<char>>, loc: Location, d: Direction): set<Direction>
  {
    if Connects(maze, loc, d) then {d} else {}
  }

  /** Whether loc is on the last row or the last column. */
  predicate OnFarEdge(maze: seq<seq<char>>, loc: Location)
    requires InBounds(maze, loc)
  {
    loc.0 == |maze| - 1 || loc.1 == |maze[loc.0]| - 1
  }

  /** The next(...) over the table's items: the first tile whose directions are dirs; StopIteration when none is. */
  function FirstTile(tiles: seq<char>, dirs: set<Direction>): (r: Outcome<char>)
    requires forall i | 0 <= i < |tiles| :: tiles[i] in Transitions
    ensures r.Success? ==> r.value in tiles && Transitions[r.value] == dirs
    ensures r.Failure? ==> r.error == StopIteration && forall i | 0 <= i < |tiles| :: Transitions[tiles[i]] != dirs
  {
    if tiles == [] then Failure(StopIteration)
    else if Transitions[tiles[0]] == dirs then Success(tiles[0])
    else FirstTile(tiles[1..], dirs)
  }

  /** One neighbour check: its direction joins valid when its tile is accepted; IndexError outside the maze. */
  method Probe(maze: seq<seq<char>>, start: Location, d: Direction, valid: set<Direction>)
    returns (r: Outcome<set<Direction>>)
    ensures r.Failure? <==> !InBounds(maze, Step(d, start))
    ensures r.Failure? ==> r.error == IndexError
    ensures r.Success? ==> r.value == valid + IfConnects(maze, start, d)
  {
    var n := Step(d, start);
    var tile := At(maze, n);
    if tile.Failure? {
      return Failure(tile.error);
    }
    AcceptedConnectsBack(d, tile.value);
    if tile.value in Accepted(d) {
      return Success(valid + {d});
    }
    return Success(valid);
  }

  /**
   * classify_start: the tile whose directions are those of the connecting
   * neighbours.  The checks for the bottom and right neighbours compare
   * with the maze's height and width rather than the last index, so a start
   * on the last row or column reads outside the maze and raises IndexError.
   */
  method ClassifyStart(maze: seq<seq<char>>, start: Location) returns (r: Outcome<char>)
    requires Rectangular(maze) && InBounds(maze, start)
    ensures r == Failure(IndexError) <==> OnFarEdge(maze, start)
    ensures r.Success? ==> r.value in Transitions && Transitions[r.value] == Connecting(maze, start)
    ensures !OnFarEdge(maze, start) ==> (r.Success? <==> |Connecting(maze, start)| == 2)
    ensures r.Failure? && !OnFarEdge(maze, start) ==> r.error == StopIteration
  {
    var neighbours := ConnectingNeighbours(maze, start);
    if neighbours.Failure? {
      return Failure(neighbours.error);
    }
    TileOrderListsTiles();
    r := FirstTile(TileOrder, neighbours.value);
    TileForEveryPair(neighbours.value);
  }

  /** The four neighbour checks of classify_start, in its order: up, left, down, right. */
  method ConnectingNeighbours(maze: seq<seq<char>>, start: Location) returns (r: Outcome<set<Direction>>)
    requires Rectangular(maze) && InBounds(maze, start)
    ensures r.Failure? <==> OnFarEdge(maze, start)
    ensures r.Failure? ==> r.error == IndexError
    ensures r.Success? ==> r.value == Connecting(maze, start)
  {
    ghost var up := IfConnects(maze, start, Up);
    ghost var left := IfConnects(maze, start, Left);
    ghost var down := IfConnects(maze, start, Down);
    ghost var right := IfConnects(maze, start, Right);
    var valid: set<Direction> := {};
    if start.0 != 0 {
      var p := Probe(maze, start, Up, valid);
      match p {
        case Failure(e) => return Failure(e);
        case Success(v) => valid := v;
      }
    }
    assert valid == up;
    if start.1 != 0 {
      var p := Probe(maze, start, Left, valid);
      match p {
        case Failure(e) => return Failure(e);
        case Success(v) => valid := v;
      }
    }
    assert valid == up + left;
    if start.0 != |maze| {
      var p := Probe(maze, start, Down, valid);
      match p {
        case Failure(e) => return Failure(e);
        case Success(v) => valid := v;
      }
    }
    assert valid == up + left + down;
    if start.1 != |maze[start.0]| {
      var p := Probe(maze, start, Right, valid);
      match p {
        case Failure(e) => return Failure(e);
        case Success(v) => valid := v;
      }
    }
    assert valid == up + left + down + right;
    ConnectingByDirection(maze, start);
    return Success(valid);
  }

  // ---------------------------------------------------------------------------
  // step_loop
  // ---------------------------------------------------------------------------

  /**
   * Where step_loop stands after a number of steps: moving on in a
   * direction, stopped at a cell holding S, or stopped by an exception
   * raised at a cell.
   */
  datatype Stage = Moving(at: Location, heading: Direction) | Ended(at: Location) | Stuck(at: Location, error: Exception)

  /** Arriving at loc moving in direction heading: read the tile, stop at S, else turn as the tile leads. */
  function Arrive(maze: seq<seq<char>>, table: Departures, loc: Location, heading: Direction): (s: Stage)
    ensures s.at == loc
  {
    match At(maze, loc)
    case Failure(e) => Stuck(loc, e)
    case Success(tile) =>
      if tile == 'S' then Ended(loc)
      else match Exit(table, tile, heading)
        case Failure(e) => Stuck(loc, e)
        case Success(next) => Moving(loc, next)
  }

  /** The stage of step_loop after k steps from start, leaving first in the direction first; a stop is final. */
  function Walk(maze: seq<seq<char>>, table: Departures, start: Location, first: Direction, k: nat): Stage
  {
    if k == 0 then Moving(start, first)
    else match Walk(maze, table, start, first, k - 1)
      case Moving(at, heading) => Arrive(maze, table, Step(heading, at), heading)
      case stop => stop
  }

  /** The cells are the walk's first locations, from the start and never back at it. */
  predicate Traced(maze: seq<seq<char>>, table: Departures, start: Location, first: Direction, cells: seq<Location>)
  {
    && cells != [] && cells[0] == start
    && (forall j | 0 <= j < |cells| :: Walk(maze, table, start, first, j).at == cells[j])
    && (forall j | 0 <= j < |cells| - 1 :: Walk(maze, table, start, first, j).Moving?)
    && (forall j | 1 <= j < |cells| :: cells[j] != start)
  }

  /** The walk after the last of the cells either stepped back onto the start or stopped at an S. */
  predicate LoopOf(maze: seq<seq<char>>, table: Departures, start: Location, first: Direction, cells: seq<Location>)
  {
    Traced(maze, table, start, first, cells) &&
    var last := Walk(maze, table, start, first, |cells| - 1);
    last.Ended? || (last.Moving? && Step(last.heading, last.at) == start)
  }

  /** The walk stepped back onto the start. */
  predicate Returns(maze: seq<seq<char>>, table: Departures, start: Location, first: Direction, cells: seq<Location>)
  {
    LoopOf(maze, table, start, first, cells) && Walk(maze, table, start, first, |cells| - 1).Moving?
  }

  /** Within fuel steps the walk stops by raising e, without having come back to the start. */
  predicate StuckWithin(maze: seq<seq<char>>, table: Departures, start: Location, first: Direction, e: Exception, fuel: nat)
  {
    exists n | 1 <= n <= fuel ::
      && Walk(maze, table, start, first, n).Stuck? && Walk(maze, table, start, first, n).error == e
      && forall j | 1 <= j <= n :: Walk(maze, table, start, first, j).at != start
  }

  /** For fuel steps the walk moves on without coming back to the start. */
  predicate MovesOn(maze: seq<seq<char>>, table: Departures, start: Location, first: Direction, fuel: nat)
  {
    forall j | 1 <= j <= fuel :: Walk(maze, table, start, first, j).Moving? && Walk(maze, table, start, first, j).at != start
  }

  /**
   * step_loop read through takewhile: the start, then each location the
   * walk reaches up to, not including, the next visit of the start, within
   * fuel steps.
   */
  method StepLoop(maze: seq<seq<char>>, table: Departures, start: Location, first: Direction, fuel: nat)
    returns (r: Run<seq<Location>>)
    ensures r.Done? ==> LoopOf(maze, table, start, first, r.value)
    ensures r.Raised? ==> r.error == IndexError || r.error == KeyError
    ensures r.Raised? ==> StuckWithin(maze, table, start, first, r.error, fuel)
    ensures r.Unfinished? ==> MovesOn(maze, table, start, first, fuel)
  {
    var cells := [start];
    var location, direction := start, first;
    var k := 0;
    while k < fuel
      invariant k <= fuel && Walked(maze, table, start, first, cells, k)
      invariant Walk(maze, table, start, first, k) == Moving(location, direction)
    {
      location := Step(direction, location);
      if location == start {
        ClosedAtStart(maze, table, start, first, cells, k);
        return Done(cells);
      }
      var tile := At(maze, location);
      WalkOn(maze, table, start, first, k);
      if tile.Failure? {
        RaisedAt(maze, table, start, first, cells, k);
        return Raised(tile.error);
      }
      if tile.value == 'S' {
        EndedAt(maze, table, start, first, cells, k);
        return Done(cells + [location]);
      }
      var next := Exit(table, tile.value, direction);
      if next.Failure? {
        RaisedAt(maze, table, start, first, cells, k);
        return Raised(next.error);
      }
      MovedOn(maze, table, start, first, cells, k);
      cells := cells + [location];
      direction := next.value;
      k := k + 1;
    }
    NeverStopped(maze, table, start, first, cells, k);
    return Unfinished;
  }

  /** cells are the walk's first k + 1 locations, all moving on, none but the first at the start. */
  predicate Walked(maze: seq<seq<char>>, table: Departures, start: Location, first: Direction, cells: seq<Location>, k: nat)
  {
    && |cells| == k + 1 && cells[0] == start
    && (forall j | 0 <= j <= k :: Walk(maze, table, start, first, j).Moving? && Walk(maze, table, start, first, j).at == cells[j])
    && (forall j | 1 <= j <= k :: cells[j] != start)
  }

  /** One step of a walk that moves on. */
  lemma {:induction false} WalkOn(maze: seq<seq<char>>, table: Departures, start: Location, first: Direction, k: nat)
    requires Walk(maze, table, start, first, k).Moving?
    ensures var s := Walk(maze, table, start, first, k);
      Walk(maze, table, start, first, k + 1) == Arrive(maze, table, Step(s.heading, s.at), s.heading)
  {
  }

  lemma {:induction false} ClosedAtStart(maze: seq<seq<char>>, table: Departures, start: Location, first: Direction, cells: seq<Location>, k: nat)
    requires Walked(maze, table, start, first, cells, k)
    requires var s := Walk(maze, table, start, first, k); s.Moving? && Step(s.heading, s.at) == start
    ensures LoopOf(maze, table, start, first, cells)
  {
  }

  lemma {:induction false} EndedAt(maze: seq<seq<char>>, table: Departures, start: Location, first: Direction, cells: seq<Location>, k: nat)
    requires Walked(maze, table, start, first, cells, k)
    requires Walk(maze, table, start, first, k + 1).Ended? && Walk(maze, table, start, first, k + 1).at != start
    ensures LoopOf(maze, table, start, first, cells + [Walk(maze, table, start, first, k + 1).at])
  {
    var cells' := cells + [Walk(maze, table, start, first, k + 1).at];
    assert forall j | 0 <= j < |cells| :: cells'[j] == cells[j];
  }

  lemma {:induction false} RaisedAt(maze: seq<seq<char>>, table: Departures, start: Location, first: Direction, cells: seq<Location>, k: nat)
    requires Walked(maze, table, start, first, cells, k)
    requires Walk(maze, table, start, first, k + 1).Stuck? && Walk(maze, table, start, first, k + 1).at != start
    ensures forall j | 1 <= j <= k + 1 :: Walk(maze, table, start, first, j).at != start
  {
  }

  lemma {:induction false} MovedOn(maze: seq<seq<char>>, table: Departures, start: Location, first: Direction, cells: seq<Location>, k: nat)
    requires Walked(maze, table, start, first, cells, k)
    requires Walk(maze, table, start, first, k + 1).Moving? && Walk(maze, table, start, first, k + 1).at != start
    ensures Walked(maze, table, start, first, cells + [Walk(maze, table, start, first, k + 1).at], k + 1)
  {
    var cells' := cells + [Walk(maze, table, start, first, k + 1).at];
    assert forall j | 0 <= j < |cells| :: cells'[j] == cells[j];
  }

  lemma {:induction false} NeverStopped(maze: seq<seq<char>>, table: Departures, start: Location, first: Direction, cells: seq<Location>, k: nat)
    requires Walked(maze, table, start, first, cells, k)
    ensures forall j | 1 <= j <= k :: Walk(maze, table, start, first, j).Moving? && Walk(maze, table, start, first, j).at != start
  {
  }

  /** The walk is still moving on after each of its first k steps but the last. */
  predicate MovesFor(maze: seq<seq<char>>, table: Departures, start: Location, first: Direction, k: nat)
  {
    k == 0 || (Walk(maze, table, start, first, k - 1).Moving? && MovesFor(maze, table, start, first, k - 1))
  }

  lemma {:induction false} MovesForAll(maze: seq<seq<char>>, table: Departures, start: Location, first: Direction, k: nat)
    requires forall j | 0 <= j < k :: Walk(maze, table, start, first, j).Moving?
    ensures MovesFor(maze, table, start, first, k)
  {
    if k > 0 {
      MovesForAll(maze, table, start, first, k - 1);
    }
  }

  /** While the walk moves on, after k steps row plus column has the start's parity plus k. */
  lemma {:induction false} WalkParity(maze: seq<seq<char>>, table: Departures, start: Location, first: Direction, k: nat)
    requires MovesFor(maze, table, start, first, k)
    ensures var at := Walk(maze, table, start, first, k).at; (at.0 + at.1) % 2 == (start.0 + start.1 + k) % 2
  {
    if k > 0 {
      WalkParity(maze, table, start, first, k - 1);
      var prev := Walk(maze, table, start, first, k - 1);
      WalkAdvances(maze, table, start, first, k - 1);
      ParityOneStep(prev.heading, prev.at, Walk(maze, table, start, first, k).at, start.0 + start.1, k);
    }
  }

  /** A walk moving on reaches the neighbour it heads for. */
  lemma {:induction false} WalkAdvances(maze: seq<seq<char>>, table: Departures, start: Location, first: Direction, k: nat)
    requires Walk(maze, table, start, first, k).Moving?
    ensures var s := Walk(maze, table, start, first, k); Walk(maze, table, start, first, k + 1).at == Step(s.heading, s.at)
  {
  }

  lemma {:induction false} ParityOneStep(d: Direction, loc: Location, at: Location, origin: int, k: nat)
    requires k > 0 && at == Step(d, loc) && (loc.0 + loc.1) % 2 == (origin + (k - 1)) % 2
    ensures (at.0 + at.1) % 2 == (origin + k) % 2
  {
    StepParity(d, loc);
    SameParityOneMore(loc.0 + loc.1, origin + (k - 1));
  }

  lemma {:induction false} SameParityOneMore(a: int, b: int)
    requires a % 2 == b % 2
    ensures (a + 1) % 2 == (b + 1) % 2
  {
  }

  /** A walk that steps back onto the start took an even number of steps: the assertion in part_one holds. */
  lemma {:induction false} ReturnIsEven(maze: seq<seq<char>>, table: Departures, start: Location, first: Direction, cells: seq<Location>)
    requires Returns(maze, table, start, first, cells)
    ensures |cells| % 2 == 0
  {
    var n := |cells| - 1;
    MovesForAll(maze, table, start, first, n);
    WalkParity(maze, table, start, first, n);
    var last := Walk(maze, table, start, first, n);
    StepParity(last.heading, last.at);
    SameParityOneMore(last.at.0 + last.at.1, start.0 + start.1 + n);
    EvenReturn(start.0 + start.1, n + 1);
  }

  lemma {:induction false} EvenReturn(a: int, m: int)
    requires a % 2 == (a + m) % 2
    ensures m % 2 == 0
  {
  }

  /** The walk's cells up to a stop at a tile all lie in the maze. */
  lemma {:induction false} TracedInBounds(maze: seq<seq<char>>, table: Departures, start: Location, first: Direction, cells: seq<Location>)
    requires LoopOf(maze, table, start, first, cells) && InBounds(maze, start)
    ensures forall j | 0 <= j < |cells| :: InBounds(maze, cells[j])
  {
    forall j | 1 <= j < |cells|
      ensures InBounds(maze, cells[j])
    {
      var s := Walk(maze, table, start, first, j);
      assert s.Moving? || s.Ended?;
      var prev := Walk(maze, table, start, first, j - 1);
      assert s == Arrive(maze, table, Step(prev.heading, prev.at), prev.heading);
    }
  }

  // ---------------------------------------------------------------------------
  // part_one
  // ---------------------------------------------------------------------------

  /**
   * The loop of the maze as part_one and part_two find it: the start is the
   * first S, tile is the start's classification placed in the maze, first
   * one of its directions and cells the loop walked from there.
   */
  predicate FoundLoop(maze: seq<seq<char>>, tile: char, first: Direction, cells: seq<Location>)
  {
    var s := FindStart(maze);
    && s.Success? && InBounds(maze, s.value)
    && tile in Transitions && Transitions[tile] == Connecting(maze, s.value)
    && first in Transitions[tile]
    && LoopOf(Place(maze, s.value, tile), TransitionsFromNext, s.value, first, cells)
  }

  /** The maze has a start, off the far edges, with exactly two connecting neighbours. */
  predicate StartClassifies(maze: seq<seq<char>>)
  {
    var s := FindStart(maze);
    s.Success? && InBounds(maze, s.value) && !OnFarEdge(maze, s.value) && |Connecting(maze, s.value)| == 2
  }

  /** tile is the start's classification and first one of its directions. */
  predicate Classified(maze: seq<seq<char>>, tile: char, first: Direction)
  {
    var s := FindStart(maze);
    && s.Success? && InBounds(maze, s.value)
    && tile in Transitions && Transitions[tile] == Connecting(maze, s.value)
    && first in Transitions[tile]
  }

  /** With the start's tile placed, the walk from the start stops by raising e within fuel steps. */
  predicate WalkStuck(maze: seq<seq<char>>, tile: char, first: Direction, e: Exception, fuel: nat)
    requires Classified(maze, tile, first)
  {
    var start := FindStart(maze).value;
    StuckWithin(Place(maze, start, tile), TransitionsFromNext, start, first, e, fuel)
  }

  /** With the start's tile placed, the walk from the start moves on for fuel steps without coming back. */
  predicate WalkRunsOut(maze: seq<seq<char>>, tile: char, first: Direction, fuel: nat)
    requires Classified(maze, tile, first)
  {
    var start := FindStart(maze).value;
    MovesOn(Place(maze, start, tile), TransitionsFromNext, start, first, fuel)
  }

  /**
   * Find the start, classify and place its tile, and walk the loop from one
   * of its directions: IndexError without a start or with a start on the
   * far edge, StopIteration when the start does not have exactly two
   * connecting neighbours; otherwise the loop, the exception that stopped
   * the walk, or a walk still going when fuel runs out.
   */
  method Loop(maze: seq<seq<char>>, fuel: nat) returns (r: Run<seq<Location>>, tile: char, first: Direction)
    requires Rectangular(maze)
    ensures FindStart(maze).Failure? ==> r == Raised(IndexError)
    ensures FindStart(maze).Success? && OnFarEdge(maze, FindStart(maze).value) ==> r == Raised(IndexError)
    ensures FindStart(maze).Success? && !OnFarEdge(maze, FindStart(maze).value) && |Connecting(maze, FindStart(maze).value)| != 2 ==>
      r == Raised(StopIteration)
    ensures r.Raised? ==> r.error != AssertionError
    ensures r.Done? ==> FoundLoop(maze, tile, first, r.value)
    ensures r.Raised? && StartClassifies(maze) ==>
      Classified(maze, tile, first) && WalkStuck(maze, tile, first, r.error, fuel)
    ensures r.Unfinished? ==> StartClassifies(maze) && Classified(maze, tile, first) && WalkRunsOut(maze, tile, first, fuel)
  {
    var s := FindStart(maze);
    if s.Failure? {
      return Raised(s.error), 'S', Up;
    }
    var start := s.value;
    var classified := ClassifyStart(maze, start);
    if classified.Failure? {
      return Raised(classified.error), 'S', Up;
    }
    tile := classified.value;
    var placed := Place(maze, start, tile);
    first :| first in Transitions[tile];
    assert Classified(maze, tile, first);
    r := StepLoop(placed, TransitionsFromNext, start, first, fuel);
  }

  /** part_one: half the length of the loop; AssertionError only when the walk stopped at a second S. */
  method PartOne(maze: seq<seq<char>>, fuel: nat) returns (r: Run<nat>)
    requires Rectangular(maze)
    ensures FindStart(maze).Failure? ==> r == Raised(IndexError)
    ensures r.Done? ==> exists tile, first, cells :: FoundLoop(maze, tile, first, cells) && |cells| == 2 * r.value
    ensures r == Raised(AssertionError) ==> exists tile, first, cells ::
      FoundLoop(maze, tile, first, cells) && !Returns(Place(maze, FindStart(maze).value, tile), TransitionsFromNext, FindStart(maze).value, first, cells)
    ensures FindStart(maze).Success? && OnFarEdge(maze, FindStart(maze).value) ==> r == Raised(IndexError)
    ensures FindStart(maze).Success? && !OnFarEdge(maze, FindStart(maze).value) && |Connecting(maze, FindStart(maze).value)| != 2 ==>
      r == Raised(StopIteration)
    ensures r.Raised? && r.error != AssertionError && StartClassifies(maze) ==>
      exists tile, first :: Classified(maze, tile, first) && WalkStuck(maze, tile, first, r.error, fuel)
    ensures r.Unfinished? ==>
      StartClassifies(maze) && exists tile, first :: Classified(maze, tile, first) && WalkRunsOut(maze, tile, first, fuel)
  {
    var loop, tile, first := Loop(maze, fuel);
    match loop {
      case Done(cells) =>
        var start := FindStart(maze).value;
        if |cells| % 2 != 0 {
          if Returns(Place(maze, start, tile), TransitionsFromNext, start, first, cells) {
            ReturnIsEven(Place(maze, start, tile), TransitionsFromNext, start, first, cells);
          }
          return Raised(AssertionError);
        }
        return Done(|cells| / 2);
      case Raised(e) => return Raised(e);
      case Unfinished => return Unfinished;
    }
  }

  // ---------------------------------------------------------------------------
  // part_two
  // ---------------------------------------------------------------------------

  /** The tiles whose loop cells count as crossings. */
  const Crossing: set<char> := {'|', 'F', '7'}

  /** The cell is in the maze and holds a crossing tile. */
  predicate CrossingAt(maze: seq<seq<char>>, loc: Location)
  {
    InBounds(maze, loc) && maze[loc.0][loc.1] in Crossing
  }

  /** No loop cell holds a crossing tile. */
  predicate NoCrossings(maze: seq<seq<char>>, cells: seq<Location>)
    requires AllInBounds(maze, cells)
  {
    forall loc | loc in cells :: maze[loc.0][loc.1] !in Crossing
  }

  /**
   * The mark of a cell: 1 for a loop cell holding a crossing tile, else 0.
   * With no such cell at all the index list is empty, and assigning through
   * an empty index list marks every cell.
   */
  function Mark(maze: seq<seq<char>>, cells: seq<Location>, r: nat, c: nat): int
    requires AllInBounds(maze, cells)
    requires r < |maze| && c < |maze[r]|
  {
    if NoCrossings(maze, cells) then 1
    else if (r, c) in cells && maze[r][c] in Crossing then 1
    else 0
  }

  /** The marks of the first n cells of row r added up. */
  function Crossings(maze: seq<seq<char>>, cells: seq<Location>, r: nat, n: nat): int
    requires AllInBounds(maze, cells)
    requires r < |maze| && n <= |maze[r]|
  {
    if n == 0 then 0 else Crossings(maze, cells, r, n - 1) + Mark(maze, cells, r, n - 1)
  }

  /** A cell off the loop with an odd number of crossings at or to its left is inside the loop. */
  predicate Enclosed(maze: seq<seq<char>>, cells: seq<Location>, r: nat, c: nat)
    requires AllInBounds(maze, cells)
    requires r < |maze| && c < |maze[r]|
  {
    (r, c) !in cells && Crossings(maze, cells, r, c + 1) % 2 == 1
  }

  /** How many of the first n cells of row r are enclosed. */
  function EnclosedInRow(maze: seq<seq<char>>, cells: seq<Location>, r: nat, n: nat): nat
    requires AllInBounds(maze, cells)
    requires r < |maze| && n <= |maze[r]|
  {
    if n == 0 then 0 else EnclosedInRow(maze, cells, r, n - 1) + if Enclosed(maze, cells, r, n - 1) then 1 else 0
  }

  /** How many cells of the first m rows are enclosed. */
  function EnclosedCount(maze: seq<seq<char>>, cells: seq<Location>, m: nat): nat
    requires AllInBounds(maze, cells)
    requires m <= |maze|
  {
    if m == 0 then 0 else EnclosedCount(maze, cells, m - 1) + EnclosedInRow(maze, cells, m - 1, |maze[m - 1]|)
  }

  /**
   * The counting in part_two: mark the loop's crossing cells, add the marks
   * up along each row, clear the loop cells and count the odd sums.
   */
  method CountEnclosed(maze: seq<seq<char>>, cells: seq<Location>) returns (count: nat)
    requires Rectangular(maze) && maze != []
    requires AllInBounds(maze, cells)
    ensures count == EnclosedCount(maze, cells, |maze|)
  {
    var transitions := MarkCrossings(maze, cells);
    var sums := CumulativeRows(maze, cells, transitions);
    ClearLoop(maze, cells, sums);
    count := CountOdd(maze, cells, sums);
  }

  /** The crossing tiles among the loop cells, in loop order. */
  method CrossingCells(maze: seq<seq<char>>, cells: seq<Location>) returns (marked: seq<Location>)
    requires AllInBounds(maze, cells)
    ensures forall loc :: loc in marked <==> loc in cells && CrossingAt(maze, loc)
  {
    marked := [];
    for i := 0 to |cells|
      invariant forall loc :: loc in marked <==> loc in cells[..i] && CrossingAt(maze, loc)
    {
      assert cells[..i + 1] == cells[..i] + [cells[i]];
      assert cells[i] in cells;
      if maze[cells[i].0][cells[i].1] in Crossing {
        marked := marked + [cells[i]];
      }
    }
    assert cells[..|cells|] == cells;
  }

  /** transitions[*transition_indices.T] = 1 on an array of zeros: the marks of all cells. */
  method MarkCrossings(maze: seq<seq<char>>, cells: seq<Location>) returns (transitions: array2<int>)
    requires Rectangular(maze) && maze != []
    requires AllInBounds(maze, cells)
    ensures fresh(transitions) && transitions.Length0 == |maze| && transitions.Length1 == |maze[0]|
    ensures forall r, c | 0 <= r < |maze| && 0 <= c < |maze[0]| :: transitions[r, c] == Mark(maze, cells, r, c)
  {
    var rows, cols := |maze|, |maze[0]|;
    var marked := CrossingCells(maze, cells);
    if marked == [] {
      transitions := new int[rows, cols]((r, c) => 1);
      assert NoCrossings(maze, cells);
    } else {
      transitions := new int[rows, cols]((r, c) => 0);
      for i := 0 to |marked|
        invariant forall r, c | 0 <= r < rows && 0 <= c < cols ::
          transitions[r, c] == if (r, c) in marked[..i] then 1 else 0
      {
        assert marked[..i + 1] == marked[..i] + [marked[i]];
        assert marked[i] in marked;
        assert |maze[marked[i].0]| == cols;
        transitions[marked[i].0, marked[i].1] := 1;
      }
      assert marked[..|marked|] == marked;
      assert !NoCrossings(maze, cells) by {
        assert marked[0] in marked;
      }
    }
  }

  /** transition_count[*loop_cells.T] = 0: the sums of the loop cells cleared. */
  method ClearLoop(maze: seq<seq<char>>, cells: seq<Location>, sums: array2<int>)
    requires Rectangular(maze) && maze != []
    requires AllInBounds(maze, cells)
    requires sums.Length0 == |maze| && sums.Length1 == |maze[0]|
    requires forall r, c | 0 <= r < |maze| && 0 <= c < |maze[0]| :: sums[r, c] == Crossings(maze, cells, r, c + 1)
    modifies sums
    ensures forall r, c | 0 <= r < |maze| && 0 <= c < |maze[0]| ::
      sums[r, c] == if (r, c) in cells then 0 else Crossings(maze, cells, r, c + 1)
  {
    for i := 0 to |cells|
      invariant forall r, c | 0 <= r < |maze| && 0 <= c < |maze[0]| ::
        sums[r, c] == if (r, c) in cells[..i] then 0 else Crossings(maze, cells, r, c + 1)
    {
      assert cells[..i + 1] == cells[..i] + [cells[i]];
      assert cells[i] in cells;
      sums[cells[i].0, cells[i].1] := 0;
    }
    assert cells[..|cells|] == cells;
  }

  /** numpy.count_nonzero(transition_count % 2 == 1): the cells with an odd sum. */
  method CountOdd(maze: seq<seq<char>>, cells: seq<Location>, sums: array2<int>) returns (count: nat)
    requires Rectangular(maze) && maze != []
    requires AllInBounds(maze, cells)
    requires sums.Length0 == |maze| && sums.Length1 == |maze[0]|
    requires forall r, c | 0 <= r < |maze| && 0 <= c < |maze[0]| ::
      sums[r, c] == if (r, c) in cells then 0 else Crossings(maze, cells, r, c + 1)
    ensures count == EnclosedCount(maze, cells, |maze|)
  {
    count := 0;
    for r := 0 to |maze|
      invariant count == EnclosedCount(maze, cells, r)
    {
      assert |maze[r]| == |maze[0]|;
      for c := 0 to |maze[0]|
        invariant count == EnclosedCount(maze, cells, r) + EnclosedInRow(maze, cells, r, c)
      {
        if sums[r, c] % 2 == 1 {
          count := count + 1;
        }
      }
    }
  }

  /** numpy.cumsum along the rows: each cell gets the marks at or to its left in its row added up. */
  method CumulativeRows(maze: seq<seq<char>>, cells: seq<Location>, marks: array2<int>) returns (sums: array2<int>)
    requires Rectangular(maze) && maze != []
    requires AllInBounds(maze, cells)
    requires marks.Length0 == |maze| && marks.Length1 == |maze[0]|
    requires forall r, c | 0 <= r < |maze| && 0 <= c < |maze[0]| :: marks[r, c] == Mark(maze, cells, r, c)
    ensures fresh(sums) && sums.Length0 == |maze| && sums.Length1 == |maze[0]|
    ensures forall r, c | 0 <= r < |maze| && 0 <= c < |maze[0]| :: sums[r, c] == Crossings(maze, cells, r, c + 1)
  {
    var rows, cols := |maze|, |maze[0]|;
    sums := new int[rows, cols]((r, c) => 0);
    for r := 0 to rows
      invariant forall r', c | 0 <= r' < r && 0 <= c < cols :: sums[r', c] == Crossings(maze, cells, r', c + 1)
    {
      var running := 0;
      for c := 0 to cols
        invariant running == Crossings(maze, cells, r, c)
        invariant forall r', c' | 0 <= r' < r && 0 <= c' < cols :: sums[r', c'] == Crossings(maze, cells, r', c' + 1)
        invariant forall c' | 0 <= c' < c :: sums[r, c'] == Crossings(maze, cells, r, c' + 1)
      {
        running := running + marks[r, c];
        sums[r, c] := running;
      }
    }
  }

  /** part_two: the number of cells the loop encloses. */
  method PartTwo(maze: seq<seq<char>>, fuel: nat) returns (r: Run<nat>)
    requires Rectangular(maze)
    ensures FindStart(maze).Failure? ==> r == Raised(IndexError)
    ensures r.Done? ==> exists tile, first, cells ::
      && FoundLoop(maze, tile, first, cells)
      && var start := FindStart(maze).value;
      && (AllInBounds(maze, cells))
      && r.value == EnclosedCount(Place(maze, start, tile), cells, |maze|)
    ensures FindStart(maze).Success? && OnFarEdge(maze, FindStart(maze).value) ==> r == Raised(IndexError)
    ensures FindStart(maze).Success? && !OnFarEdge(maze, FindStart(maze).value) && |Connecting(maze, FindStart(maze).value)| != 2 ==>
      r == Raised(StopIteration)
    ensures r.Raised? && StartClassifies(maze) ==>
      exists tile, first :: Classified(maze, tile, first) && WalkStuck(maze, tile, first, r.error, fuel)
    ensures r.Unfinished? ==>
      StartClassifies(maze) && exists tile, first :: Classified(maze, tile, first) && WalkRunsOut(maze, tile, first, fuel)
  {
    var loop, tile, first := Loop(maze, fuel);
    match loop {
      case Done(cells) =>
        var count := EnclosedByLoop(maze, tile, first, cells);
        return Done(count);
      case Raised(e) =>
        assert StartClassifies(maze) ==> Classified(maze, tile, first) && WalkStuck(maze, tile, first, e, fuel);
        return Raised(e);
      case Unfinished =>
        assert Classified(maze, tile, first) && WalkRunsOut(maze, tile, first, fuel);
        return Unfinished;
    }
  }

  /** The body of part_two once the loop is found: the cells it encloses in the maze with the start's tile placed. */
  method EnclosedByLoop(maze: seq<seq<char>>, tile: char, first: Direction, cells: seq<Location>) returns (count: nat)
    requires Rectangular(maze) && FoundLoop(maze, tile, first, cells)
    ensures AllInBounds(maze, cells)
    ensures count == EnclosedCount(Place(maze, FindStart(maze).value, tile), cells, |maze|)
  {
    var start := FindStart(maze).value;
    var placed := Place(maze, start, tile);
    TracedInBounds(placed, TransitionsFromNext, start, first, cells);
    assert AllInBounds(maze, cells);
    count := CountEnclosed(placed, cells);
  }
}
