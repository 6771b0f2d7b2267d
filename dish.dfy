/**
 * Parabolic Reflector Dish (14/14.py): a platform of round rocks ('O'),
 * cube rocks ('#') and empty space ('.').  Tilting it north rolls every round
 * rock up its column until it meets a cube rock, another round rock or the
 * edge.  A spin cycle tilts north, west, south and east in turn; the load of
 * the platform counts each round rock by its distance from the south edge.
 */
module Dish {
  import Arith

  type Grid = seq<seq<char>>

  // ---------------------------------------------------------------------------
  // One column
  // ---------------------------------------------------------------------------

  /** numpy.count_nonzero(s == c) */
  function Count(s: seq<char>, c: char): (n: nat)
    ensures n <= |s|
  {
    if s == [] then 0 else (if s[0] == c then 1 else 0) + Count(s[1..], c)
  }

  lemma {:induction false} CountConcat(a: seq<char>, b: seq<char>, c: char)
    ensures Count(a + b, c) == Count(a, c) + Count(b, c)
  {
    if a == [] {
      assert a + b == b;
    } else {
      assert (a + b)[1..] == a[1..] + b;
      CountConcat(a[1..], b, c);
    }
  }

  /** The index of the first cube rock, or the length when there is none. */
  function Wall(s: seq<char>): (k: nat)
    ensures k <= |s|
  {
    if s == [] || s[0] == '#' then 0 else 1 + Wall(s[1..])
  }

  lemma {:induction false} WallIsFirst(s: seq<char>)
    ensures Wall(s) < |s| ==> s[Wall(s)] == '#'
    ensures forall i | 0 <= i < Wall(s) :: s[i] != '#'
  {
    if s != [] && s[0] != '#' {
      WallIsFirst(s[1..]);
      forall i | 0 < i < Wall(s)
        ensures s[i] != '#'
      {
        assert s[i] == s[1..][i - 1];
      }
    }
  }

  /** The n round rocks of a stretch without cube rocks rolled to its top: n 'O' then '.' up to len cells. */
  function Rolled(n: nat, len: nat): (s: seq<char>)
    requires n <= len
    ensures |s| == len
  {
    seq(len, i => if i < n then 'O' else '.')
  }

  lemma {:induction false} CountRolled(n: nat, len: nat)
    requires n <= len
    ensures Count(Rolled(n, len), 'O') == n
    decreases len
  {
    if len > 0 {
      var m := if n > 0 then n - 1 else 0;
      assert Rolled(n, len)[1..] == Rolled(m, len - 1);
      CountRolled(m, len - 1);
    }
  }

  /**
   * A column tilted towards its start: each stretch up to a cube rock or the
   * end keeps its length and gets its round rocks at its top.
   */
  function Settle(col: seq<char>): (s: seq<char>)
    ensures |s| == |col|
    decreases |col|
  {
    var k := Wall(col);
    var stretch := Rolled(Count(col[..k], 'O'), k);
    if k == |col| then stretch else stretch + ['#'] + Settle(col[k + 1..])
  }

  /** What a tilted cell may hold. */
  predicate Tidy(c: char)
  {
    c == '#' || c == 'O' || c == '.'
  }

  /** The pieces of a tilted column: the rolled stretch, then the cube rock and the rest tilted. */
  lemma {:induction false} SettleParts(col: seq<char>)
    ensures var k := Wall(col);
      && Settle(col)[..k] == Rolled(Count(col[..k], 'O'), k)
      && (k < |col| ==> Settle(col)[k] == '#' && Settle(col)[k + 1..] == Settle(col[k + 1..]))
  {
    var k := Wall(col);
    var stretch := Rolled(Count(col[..k], 'O'), k);
    if k < |col| {
      var rest := Settle(col[k + 1..]);
      assert Settle(col) == stretch + ['#'] + rest;
      assert (stretch + ['#'] + rest)[..k] == stretch;
      assert (stretch + ['#'] + rest)[k + 1..] == rest;
    } else {
      assert Settle(col) == stretch;
    }
  }

  /** Tilting keeps every cube rock in place, and leaves only round rocks and empty space elsewhere. */
  lemma {:induction false} SettleKeepsWalls(col: seq<char>)
    ensures forall i | 0 <= i < |col| :: (Settle(col)[i] == '#') == (col[i] == '#') && Tidy(Settle(col)[i])
    decreases |col|
  {
    var k := Wall(col);
    var n := Count(col[..k], 'O');
    var s := Settle(col);
    SettleParts(col);
    WallIsFirst(col);
    forall i | 0 <= i < k
      ensures (s[i] == '#') == (col[i] == '#') && Tidy(s[i])
    {
      assert s[i] == s[..k][i];
    }
    if k < |col| {
      var rest := col[k + 1..];
      SettleKeepsWalls(rest);
      forall i | k < i < |col|
        ensures (s[i] == '#') == (col[i] == '#') && Tidy(s[i])
      {
        assert s[i] == s[k + 1..][i - k - 1] && col[i] == rest[i - k - 1];
      }
    }
  }

  /** Tilting keeps the number of round rocks in a column. */
  lemma {:induction false} SettleKeepsRoundRocks(col: seq<char>)
    ensures Count(Settle(col), 'O') == Count(col, 'O')
    decreases |col|
  {
    var k := Wall(col);
    var n := Count(col[..k], 'O');
    CountRolled(n, k);
    if k < |col| {
      WallIsFirst(col);
      var rest := col[k + 1..];
      SettleKeepsRoundRocks(rest);
      assert col == col[..k] + ['#'] + rest;
      CountConcat(col[..k], ['#'], 'O');
      CountConcat(col[..k] + ['#'], rest, 'O');
      assert Settle(col) == Rolled(n, k) + ['#'] + Settle(rest);
      CountConcat(Rolled(n, k), ['#'], 'O');
      CountConcat(Rolled(n, k) + ['#'], Settle(rest), 'O');
    } else {
      assert col[..k] == col;
    }
  }

  /** Tilting splits at a cube rock: each side is tilted on its own. */
  lemma {:induction false} SettleSplit(a: seq<char>, b: seq<char>)
    ensures Settle(a + ['#'] + b) == Settle(a) + ['#'] + Settle(b)
    decreases |a|
  {
    var col := a + ['#'] + b;
    var k := Wall(a);
    assert Wall(col) == k by {
      assert col == a + (['#'] + b);
      WallOfPrefix(a, ['#'] + b);
    }
    assert col[..k] == a[..k];
    if k < |a| {
      assert col[k + 1..] == a[k + 1..] + ['#'] + b;
      SettleSplit(a[k + 1..], b);
    } else {
      assert col[k + 1..] == b;
    }
  }

  /** The first cube rock of a + b is that of a, or past a when a has none and b starts with one. */
  lemma {:induction false} WallOfPrefix(a: seq<char>, b: seq<char>)
    requires b != [] && b[0] == '#'
    ensures Wall(a + b) == Wall(a)
  {
    if a != [] && a[0] != '#' {
      assert (a + b)[1..] == a[1..] + b;
      WallOfPrefix(a[1..], b);
    }
  }

  /** Tilting a tilted column changes nothing. */
  lemma {:induction false} SettleIdempotent(col: seq<char>)
    ensures Settle(Settle(col)) == Settle(col)
    decreases |col|
  {
    var s := Settle(col);
    var k := Wall(col);
    var n := Count(col[..k], 'O');
    assert Wall(s) == k by {
      SettleKeepsWalls(col);
      SameWalls(col, s);
    }
    assert s[..k] == Rolled(n, k);
    CountRolled(n, k);
    if k < |col| {
      assert s[k + 1..] == Settle(col[k + 1..]);
      SettleIdempotent(col[k + 1..]);
    }
  }

  /** No empty cell lies directly above a round rock. */
  predicate Packed(s: seq<char>)
  {
    forall i | 0 <= i < |s| - 1 :: !(s[i] == '.' && s[i + 1] == 'O')
  }

  predicate AllTidy(s: seq<char>)
  {
    forall i | 0 <= i < |s| :: Tidy(s[i])
  }

  /** In a tilted column every round rock sits on a cube rock, another round rock or the edge. */
  lemma {:induction false} SettlePacked(col: seq<char>)
    ensures Packed(Settle(col))
    decreases |col|
  {
    var k := Wall(col);
    var n := Count(col[..k], 'O');
    var s := Settle(col);
    SettleParts(col);
    forall i | 0 <= i < |s| - 1
      ensures !(s[i] == '.' && s[i + 1] == 'O')
    {
      if i + 1 < k {
        assert s[i] == s[..k][i] && s[i + 1] == s[..k][i + 1];
      } else if k < i {
        SettlePacked(col[k + 1..]);
        assert s[i] == s[k + 1..][i - k - 1] && s[i + 1] == s[k + 1..][i - k];
      }
    }
  }

  /** An open stretch of round rocks and '.' with no gap is its own tilt. */
  lemma {:induction false} PackedStretch(s: seq<char>)
    requires AllTidy(s) && Packed(s) && forall i | 0 <= i < |s| :: s[i] != '#'
    ensures s == Rolled(Count(s, 'O'), |s|)
  {
    if s != [] {
      var t := s[1..];
      assert forall i | 0 <= i < |t| :: t[i] == s[i + 1];
      PackedStretch(t);
      var c := Count(t, 'O');
      if s[0] == '.' && t != [] {
        assert t[0] != 'O';
        assert t[0] == Rolled(c, |t|)[0];
      }
      assert s == [s[0]] + t;
    }
  }

  /** A tidy column with no gap under a round rock is its own tilt. */
  lemma {:induction false} PackedFixed(col: seq<char>)
    requires AllTidy(col) && Packed(col)
    ensures Settle(col) == col
    decreases |col|
  {
    var k := Wall(col);
    WallIsFirst(col);
    var front := col[..k];
    assert AllTidy(front) && Packed(front) && forall i | 0 <= i < |front| :: front[i] != '#' by {
      assert forall i | 0 <= i < k :: front[i] == col[i];
    }
    PackedStretch(front);
    SettleParts(col);
    if k < |col| {
      var rest := col[k + 1..];
      assert AllTidy(rest) && Packed(rest) by {
        assert forall i | 0 <= i < |rest| :: rest[i] == col[i + k + 1];
      }
      PackedFixed(rest);
      assert col == front + [col[k]] + rest;
      assert Settle(col) == Settle(col)[..k] + [Settle(col)[k]] + Settle(col)[k + 1..];
    } else {
      assert col == front;
    }
  }

  /** A column is its own tilt exactly when it holds only '#', 'O' and '.', with no gap under a round rock. */
  lemma {:induction false} FixedIffPacked(col: seq<char>)
    ensures Settle(col) == col <==> AllTidy(col) && Packed(col)
  {
    SettleKeepsWalls(col);
    SettlePacked(col);
    if AllTidy(col) && Packed(col) {
      PackedFixed(col);
    }
  }

  /** Columns with their cube rocks in the same places have their first cube rock in the same place. */
  lemma {:induction false} SameWalls(a: seq<char>, b: seq<char>)
    requires |a| == |b| && forall i | 0 <= i < |a| :: (a[i] == '#') == (b[i] == '#')
    ensures Wall(a) == Wall(b)
  {
    if a != [] && a[0] != '#' {
      SameWalls(a[1..], b[1..]);
    }
  }

  /** A stretch with no cube rock tilts to its round rocks at the top. */
  lemma {:induction false} SettleOpen(s: seq<char>)
    requires forall i | 0 <= i < |s| :: s[i] != '#'
    ensures Settle(s) == Rolled(Count(s, 'O'), |s|)
  {
    NoWall(s);
    assert s[..|s|] == s;
  }

  lemma {:induction false} NoWall(s: seq<char>)
    requires forall i | 0 <= i < |s| :: s[i] != '#'
    ensures Wall(s) == |s|
  {
    if s != [] {
      assert forall i | 0 <= i < |s| - 1 :: s[1..][i] == s[i + 1];
      NoWall(s[1..]);
    }
  }

  /** Tilting a column prefix that ends in a cube rock followed by an open stretch. */
  lemma {:induction false} StretchStep(column: seq<char>, top: nat, end: nat)
    requires top < end <= |column| && column[top] == '#'
    requires forall i | top < i < end :: column[i] != '#'
    ensures Count(column[top..end], 'O') <= end - top - 1
    ensures Settle(column[..end])
      == Settle(column[..top]) + ['#'] + Rolled(Count(column[top..end], 'O'), end - top - 1)
  {
    var stretch := column[top + 1..end];
    assert column[top..end] == ['#'] + stretch;
    CountConcat(['#'], stretch, 'O');
    assert column[..end] == column[..top] + ['#'] + stretch;
    SettleSplit(column[..top], stretch);
    SettleOpen(stretch);
  }

  /** The indices of the cube rocks of a column, in increasing order (numpy.flatnonzero(column == '#')). */
  function Cubes(s: seq<char>): (w: seq<nat>)
    ensures forall j | 0 <= j < |w| :: w[j] < |s| && s[w[j]] == '#'
    ensures forall a, b | 0 <= a < b < |w| :: w[a] < w[b]
    ensures forall i | 0 <= i < |s| && s[i] == '#' :: i in w
  {
    if s == [] then []
    else
      var front := Cubes(s[..|s| - 1]);
      assert forall i | 0 <= i < |s| - 1 :: s[..|s| - 1][i] == s[i];
      front + if s[|s| - 1] == '#' then [|s| - 1] else []
  }

  /** No cube rock lies strictly between two consecutive entries of an increasing list that covers them all. */
  lemma {:induction false} OpenBetween(column: seq<char>, sq: seq<nat>, j: nat)
    requires forall a, b | 0 <= a < b < |sq| :: sq[a] < sq[b]
    requires forall i | 0 <= i < |column| && column[i] == '#' :: i in sq
    requires j + 1 < |sq|
    ensures forall i | sq[j] < i < sq[j + 1] && i < |column| :: column[i] != '#'
  {
    forall i | sq[j] < i < sq[j + 1] && i < |column|
      ensures column[i] != '#'
    {
      forall a | 0 <= a < |sq|
        ensures sq[a] != i
      {
        if a < j {
          assert sq[a] < sq[j];
        } else if j + 1 < a {
          assert sq[j + 1] < sq[a];
        }
      }
    }
  }

  /** The stretch from the j-th cube rock to the next one (or the end) holds no cube rock. */
  lemma {:induction false} NextStretch(column: seq<char>, sq: seq<nat>, j: nat)
    requires sq == Cubes(column) + [|column| + 1] && j + 1 < |sq|
    requires sq[j] < |column| && column[sq[j]] == '#'
    ensures Min(sq[j], |column|) == sq[j] < Min(sq[j + 1], |column|)
    ensures forall i | sq[j] < i < Min(sq[j + 1], |column|) :: column[i] != '#'
    ensures j + 2 < |sq| ==> sq[j + 1] < |column| && column[sq[j + 1]] == '#'
    ensures j + 2 == |sq| ==> sq[j + 1] == |column| + 1
  {
    OpenBetween(column, sq, j);
  }

  function Min(a: int, b: int): int
  {
    if a < b then a else b
  }

  /** Writes the cube rock at top and the round rocks below it into a stretch of '.' (14/14.py:40-41). */
  method FillStretch(newColumn: array<char>, top: nat, end: nat, count: nat)
    requires top < end <= newColumn.Length && count <= end - top - 1
    requires forall i | top <= i < newColumn.Length :: newColumn[i] == '.'
    modifies newColumn
    ensures newColumn[..end] == old(newColumn[..top]) + ['#'] + Rolled(count, end - top - 1)
    ensures forall i | end <= i < newColumn.Length :: newColumn[i] == '.'
  {
    newColumn[top] := '#';
    forall i | top + 1 <= i < top + 1 + count {
      newColumn[i] := 'O';
    }
  }

  /**
   * Tilts one padded column (14/14.py:32-41): the column starts with a cube
   * rock; a fresh column of '.' gets, for each pair of consecutive cube rocks
   * (the last paired with one past the end), the cube rock and below it as
   * many round rocks as the stretch holds.
   */
  method SettleColumn(column: seq<char>) returns (newColumn: array<char>)
    requires |column| > 0 && column[0] == '#'
    ensures fresh(newColumn)
    ensures newColumn[..] == Settle(column)
  {
    var n := |column|;
    var squareRocks: seq<nat> := Cubes(column) + [n + 1];
    assert squareRocks[0] == 0 by {
      assert 0 in Cubes(column);
    }
    newColumn := new char[n](_ => '.');
    var j := 0;
    while j + 1 < |squareRocks|
      invariant 0 <= j < |squareRocks|
      invariant j + 1 < |squareRocks| ==> squareRocks[j] < n && column[squareRocks[j]] == '#'
      invariant j + 1 == |squareRocks| ==> squareRocks[j] == n + 1
      invariant newColumn[..Min(squareRocks[j], n)] == Settle(column[..Min(squareRocks[j], n)])
      invariant forall i | Min(squareRocks[j], n) <= i < n :: newColumn[i] == '.'
    {
      var top, bottom := squareRocks[j], squareRocks[j + 1];
      var end := Min(bottom, n);
      NextStretch(column, squareRocks, j);
      StretchStep(column, top, end);
      var roundRockCount := Count(column[top..end], 'O');
      FillStretch(newColumn, top, end, roundRockCount);
      assert newColumn[..end] == Settle(column[..end]);
      j := j + 1;
    }
    assert newColumn[..] == newColumn[..n] && column == column[..n];
  }

  /** The padding cube rock stays on top and the column below it tilts on its own. */
  lemma {:induction false} SettlePadded(rest: seq<char>)
    ensures Settle(['#'] + rest) == ['#'] + Settle(rest)
  {
    SettleSplit([], rest);
    assert [] + ['#'] + rest == ['#'] + rest;
  }

  // ---------------------------------------------------------------------------
  // The platform
  // ---------------------------------------------------------------------------

  /** A two-dimensional array of cells: at least one row, at least one column, all rows alike. */
  predicate IsGrid(m: Grid)
  {
    |m| > 0 && |m[0]| > 0 && forall r | 0 <= r < |m| :: |m[r]| == |m[0]|
  }

  function Width(m: Grid): nat
  {
    if m == [] then 0 else |m[0]|
  }

  /** A rectangle of the given size. */
  predicate Shaped(m: Grid, height: nat, width: nat)
  {
    |m| == height && forall r | 0 <= r < |m| :: |m[r]| == width
  }

  function Column(m: Grid, c: nat): (col: seq<char>)
    requires IsGrid(m) && c < Width(m)
    ensures |col| == |m| && forall r | 0 <= r < |m| :: col[r] == m[r][c]
  {
    seq(|m|, r requires 0 <= r < |m| => m[r][c])
  }

  /** The platform tilted north: every column tilted towards row 0. */
  function North(m: Grid): (t: Grid)
    requires IsGrid(m)
    ensures Shaped(t, |m|, Width(m)) && IsGrid(t)
  {
    seq(|m|, r requires 0 <= r < |m| => seq(Width(m), c requires 0 <= c < Width(m) => Settle(Column(m, c))[r]))
  }

  /** numpy.c_: the columns side by side, as rows of the given height. */
  function FromColumns(columns: seq<seq<char>>, height: nat): (m: Grid)
    requires forall c | 0 <= c < |columns| :: |columns[c]| == height
    ensures Shaped(m, height, |columns|)
    ensures forall r, c | 0 <= r < height && 0 <= c < |columns| :: m[r][c] == columns[c][r]
  {
    seq(height, r requires 0 <= r < height => seq(|columns|, c requires 0 <= c < |columns| => columns[c][r]))
  }

  /**
   * tilt_north (14/14.py:23-45): pads the platform with a row of cube rocks,
   * tilts each column, stacks the columns and drops the padding row.
   */
  method TiltNorth(rocks: Grid) returns (tilted: Grid)
    requires IsGrid(rocks)
    ensures tilted == North(rocks)
  {
    var width := Width(rocks);
    var padded := [seq(width, _ => '#')] + rocks;
    assert IsGrid(padded);
    var columns: seq<seq<char>> := [];
    for x := 0 to width
      invariant |columns| == x
      invariant forall c | 0 <= c < x :: columns[c] == ['#'] + Settle(Column(rocks, c))
    {
      var column := Column(padded, x);
      assert column[1..] == Column(rocks, x);
      var newColumn := SettleColumn(column);
      SettlePadded(column[1..]);
      assert ['#'] + column[1..] == column;
      columns := columns + [newColumn[..]];
    }
    var stacked := FromColumns(columns, |padded|);
    tilted := stacked[1..];
    forall r | 0 <= r < |rocks|
      ensures tilted[r] == North(rocks)[r]
    {
      forall c | 0 <= c < width
        ensures tilted[r][c] == North(rocks)[r][c]
      {
        assert tilted[r][c] == columns[c][r + 1];
      }
    }
  }

  /** A column of the tilted platform is the tilted column. */
  lemma {:induction false} NorthColumn(m: Grid, c: nat)
    requires IsGrid(m) && c < Width(m)
    ensures Column(North(m), c) == Settle(Column(m, c))
  {
  }

  /** Tilting north keeps every cube rock in place and leaves only round rocks and '.' elsewhere. */
  lemma {:induction false} NorthKeepsWalls(m: Grid)
    requires IsGrid(m)
    ensures forall r, c | 0 <= r < |m| && 0 <= c < Width(m) ::
      (North(m)[r][c] == '#') == (m[r][c] == '#') && Tidy(North(m)[r][c])
  {
    forall r, c | 0 <= r < |m| && 0 <= c < Width(m)
      ensures (North(m)[r][c] == '#') == (m[r][c] == '#') && Tidy(North(m)[r][c])
    {
      SettleKeepsWalls(Column(m, c));
    }
  }

  /** Tilting north keeps the number of round rocks in every column. */
  lemma {:induction false} NorthKeepsRoundRocks(m: Grid)
    requires IsGrid(m)
    ensures forall c | 0 <= c < Width(m) :: Count(Column(North(m), c), 'O') == Count(Column(m, c), 'O')
  {
    forall c | 0 <= c < Width(m)
      ensures Count(Column(North(m), c), 'O') == Count(Column(m, c), 'O')
    {
      NorthColumn(m, c);
      SettleKeepsRoundRocks(Column(m, c));
    }
  }

  /** Tilting north twice is tilting north once. */
  lemma {:induction false} NorthIdempotent(m: Grid)
    requires IsGrid(m)
    ensures North(North(m)) == North(m)
  {
    var t := North(m);
    forall r | 0 <= r < |m|
      ensures North(t)[r] == t[r]
    {
      forall c | 0 <= c < Width(m)
        ensures North(t)[r][c] == t[r][c]
      {
        NorthColumn(m, c);
        SettleIdempotent(Column(m, c));
      }
    }
  }

  // ---------------------------------------------------------------------------
  // Rotations and the other three tilts
  // ---------------------------------------------------------------------------

  function Reverse(s: seq<char>): (r: seq<char>)
    ensures |r| == |s| && forall k | 0 <= k < |s| :: r[k] == s[|s| - 1 - k]
  {
    seq(|s|, k requires 0 <= k < |s| => s[|s| - 1 - k])
  }

  /** numpy.rot90(m, k=1): a quarter turn anticlockwise; row i is column width-1-i read downwards. */
  function RotateLeft(m: Grid): (t: Grid)
    requires IsGrid(m)
    ensures Shaped(t, Width(m), |m|) && IsGrid(t)
    ensures forall i, j | 0 <= i < Width(m) && 0 <= j < |m| :: t[i][j] == m[j][Width(m) - 1 - i]
  {
    seq(Width(m), i requires 0 <= i < Width(m) => seq(|m|, j requires 0 <= j < |m| => m[j][Width(m) - 1 - i]))
  }

  /** numpy.rot90(m, k=-1): a quarter turn clockwise; row i is column i read upwards. */
  function RotateRight(m: Grid): (t: Grid)
    requires IsGrid(m)
    ensures Shaped(t, Width(m), |m|) && IsGrid(t)
    ensures forall i, j | 0 <= i < Width(m) && 0 <= j < |m| :: t[i][j] == m[|m| - 1 - j][i]
  {
    seq(Width(m), i requires 0 <= i < Width(m) => seq(|m|, j requires 0 <= j < |m| => m[|m| - 1 - j][i]))
  }

  /** numpy.rot90(m, k=2) and k=-2: a half turn. */
  function Turn(m: Grid): (t: Grid)
    requires IsGrid(m)
    ensures Shaped(t, |m|, Width(m)) && IsGrid(t)
    ensures forall i, j | 0 <= i < |m| && 0 <= j < Width(m) :: t[i][j] == m[|m| - 1 - i][Width(m) - 1 - j]
  {
    seq(|m|, i requires 0 <= i < |m| => seq(Width(m), j requires 0 <= j < Width(m) => m[|m| - 1 - i][Width(m) - 1 - j]))
  }

  /** Turning back by the inverse amount restores the platform: a quarter turn each way. */
  lemma {:induction false} QuarterTurnsUndo(m: Grid)
    requires IsGrid(m)
    ensures RotateRight(RotateLeft(m)) == m && RotateLeft(RotateRight(m)) == m
  {
    var a, b := RotateRight(RotateLeft(m)), RotateLeft(RotateRight(m));
    forall r | 0 <= r < |m|
      ensures a[r] == m[r]
    {
    }
    forall r | 0 <= r < |m|
      ensures b[r] == m[r]
    {
    }
  }

  /** Two half turns restore the platform. */
  lemma {:induction false} HalfTurnsUndo(m: Grid)
    requires IsGrid(m)
    ensures Turn(Turn(m)) == m
  {
    var h := Turn(Turn(m));
    forall r | 0 <= r < |m|
      ensures h[r] == m[r]
    {
    }
  }

  /** The platform tilted west: every row tilted towards column 0. */
  function West(m: Grid): (t: Grid)
    requires IsGrid(m)
    ensures Shaped(t, |m|, Width(m)) && IsGrid(t)
  {
    seq(|m|, r requires 0 <= r < |m| => Settle(m[r]))
  }

  /** The platform tilted east: every row tilted towards its last column. */
  function East(m: Grid): (t: Grid)
    requires IsGrid(m)
    ensures Shaped(t, |m|, Width(m)) && IsGrid(t)
  {
    seq(|m|, r requires 0 <= r < |m| => Reverse(Settle(Reverse(m[r]))))
  }

  /** The platform tilted south: every column tilted towards the last row. */
  function South(m: Grid): (t: Grid)
    requires IsGrid(m)
    ensures Shaped(t, |m|, Width(m)) && IsGrid(t)
  {
    seq(|m|, r requires 0 <= r < |m| =>
      seq(Width(m), c requires 0 <= c < Width(m) => Reverse(Settle(Reverse(Column(m, c))))[r]))
  }

  /** tilt_west (14/14.py:56-57): a quarter turn clockwise, tilt north, a quarter turn back. */
  lemma {:induction false} WestByRotation(m: Grid)
    requires IsGrid(m)
    ensures RotateLeft(North(RotateRight(m))) == West(m)
  {
    var turned := RotateRight(m);
    var t := RotateLeft(North(turned));
    forall i | 0 <= i < |m|
      ensures t[i] == West(m)[i]
    {
      assert Column(turned, |m| - 1 - i) == m[i];
    }
  }

  /** tilt_east (14/14.py:48-49): a quarter turn anticlockwise, tilt north, a quarter turn back. */
  lemma {:induction false} EastByRotation(m: Grid)
    requires IsGrid(m)
    ensures RotateRight(North(RotateLeft(m))) == East(m)
  {
    var turned := RotateLeft(m);
    var t := RotateRight(North(turned));
    forall i | 0 <= i < |m|
      ensures t[i] == East(m)[i]
    {
      assert Column(turned, i) == Reverse(m[i]);
    }
  }

  /** tilt_south (14/14.py:52-53): a half turn, tilt north, a half turn back. */
  lemma {:induction false} SouthByRotation(m: Grid)
    requires IsGrid(m)
    ensures Turn(North(Turn(m))) == South(m)
  {
    var t := Turn(North(Turn(m)));
    forall i | 0 <= i < |m|
      ensures t[i] == South(m)[i]
    {
      forall j | 0 <= j < Width(m)
        ensures t[i][j] == South(m)[i][j]
      {
        SouthCell(m, i, j);
      }
    }
  }

  /** One cell of SouthByRotation: column j of the half-turned platform is column j read upwards. */
  lemma {:induction false} SouthCell(m: Grid, i: nat, j: nat)
    requires IsGrid(m) && i < |m| && j < Width(m)
    ensures Turn(North(Turn(m)))[i][j] == South(m)[i][j]
  {
    var turned := Turn(m);
    assert Column(turned, Width(m) - 1 - j) == Reverse(Column(m, j));
  }

  /** tilt_west (14/14.py:56-57). */
  method TiltWest(rocks: Grid) returns (tilted: Grid)
    requires IsGrid(rocks)
    ensures tilted == West(rocks)
  {
    var north := TiltNorth(RotateRight(rocks));
    tilted := RotateLeft(north);
    WestByRotation(rocks);
  }

  /** tilt_east (14/14.py:48-49). */
  method TiltEast(rocks: Grid) returns (tilted: Grid)
    requires IsGrid(rocks)
    ensures tilted == East(rocks)
  {
    var north := TiltNorth(RotateLeft(rocks));
    tilted := RotateRight(north);
    EastByRotation(rocks);
  }

  /** tilt_south (14/14.py:52-53). */
  method TiltSouth(rocks: Grid) returns (tilted: Grid)
    requires IsGrid(rocks)
    ensures tilted == South(rocks)
  {
    var north := TiltNorth(Turn(rocks));
    tilted := Turn(north);
    SouthByRotation(rocks);
  }

  /** Tilting west tilts each row on its own, so it keeps the cube rocks and is idempotent. */
  lemma {:induction false} WestIdempotent(m: Grid)
    requires IsGrid(m)
    ensures West(West(m)) == West(m)
  {
    forall r | 0 <= r < |m|
      ensures West(West(m))[r] == West(m)[r]
    {
      SettleIdempotent(m[r]);
    }
  }

  // ---------------------------------------------------------------------------
  // Spin cycles
  // ---------------------------------------------------------------------------

  /** One spin cycle: north, west, south, east. */
  function Cycle(m: Grid): (t: Grid)
    requires IsGrid(m)
    ensures Shaped(t, |m|, Width(m)) && IsGrid(t)
  {
    East(South(West(North(m))))
  }

  /** A spin cycle as a step on any platform: a cycle on a grid, nothing otherwise. */
  function Spin(m: Grid): Grid
  {
    if IsGrid(m) then Cycle(m) else m
  }

  /** x after n applications of f. */
  function Iterate<T>(f: T -> T, x: T, n: nat): T
  {
    if n == 0 then x else f(Iterate(f, x, n - 1))
  }

  /** The platform after n spin cycles. */
  function Cycles(m: Grid, n: nat): Grid
  {
    Iterate(Spin, m, n)
  }

  /** Spinning keeps a grid a grid of the same size. */
  lemma {:induction false} CyclesShape(m: Grid, n: nat)
    requires IsGrid(m)
    ensures Shaped(Cycles(m, n), |m|, Width(m)) && IsGrid(Cycles(m, n))
  {
    if n > 0 {
      CyclesShape(m, n - 1);
    }
  }

  /** iterate_rocks (14/14.py:60-61). */
  method IterateRocks(rocks: Grid) returns (spun: Grid)
    requires IsGrid(rocks)
    ensures spun == Cycle(rocks)
  {
    var north := TiltNorth(rocks);
    var west := TiltWest(north);
    var south := TiltSouth(west);
    spun := TiltEast(south);
  }

  /** Values that agree after a and b steps agree ever after, n steps later each. */
  lemma {:induction false} IterateShift<T>(f: T -> T, x: T, a: nat, b: nat, n: nat)
    requires Iterate(f, x, a) == Iterate(f, x, b)
    ensures Iterate(f, x, a + n) == Iterate(f, x, b + n)
  {
    if n > 0 {
      IterateShift(f, x, a, b, n - 1);
      assert Iterate(f, x, a + n) == f(Iterate(f, x, a + (n - 1)));
      assert Iterate(f, x, b + n) == f(Iterate(f, x, b + (n - 1)));
    }
  }

  /** a steps and then b more are a + b steps. */
  lemma {:induction false} IterateAdd<T>(f: T -> T, x: T, a: nat, b: nat)
    ensures Iterate(f, Iterate(f, x, a), b) == Iterate(f, x, a + b)
  {
    if b > 0 {
      IterateAdd(f, x, a, b - 1);
      assert Iterate(f, x, a + b) == f(Iterate(f, x, a + (b - 1)));
    }
  }

  /**
   * Once the value after p steps comes back after q > p steps, every later
   * value is one of those from p up to q - 1, in turn.
   */
  lemma {:induction false} IterateRepeat<T>(f: T -> T, x: T, p: nat, q: nat, t: nat)
    requires p < q && Iterate(f, x, p) == Iterate(f, x, q) && p <= t
    ensures Iterate(f, x, t) == Iterate(f, x, p + (t - p) % (q - p))
    decreases t
  {
    var period := q - p;
    if t < q {
      Arith.ModUnique(t - p, period, 0, t - p);
    } else {
      var back: nat := p + (t - q);
      IterateShift(f, x, p, q, t - q);
      assert q + (t - q) == t;
      IterateRepeat(f, x, p, q, back);
      Arith.ModUnique(t - p, period, (back - p) / period + 1, (back - p) % period);
    }
  }

  /** (i - p) + (total - i) % (i - p) and total - p leave the same remainder modulo i - p. */
  lemma {:induction false} ModShift(p: nat, i: nat, total: nat)
    requires p < i <= total
    ensures (i + (total - i) % (i - p) - p) % (i - p) == (total - p) % (i - p)
  {
    var n := i - p;
    var r := (total - i) % n;
    var d := (total - i) / n;
    Arith.ModUnique(total - i, n, d, r);
    Arith.ModUnique(total - p, n, d + 1, r);
    Arith.ModUnique(i + r - p, n, 1, r);
  }

  // ---------------------------------------------------------------------------
  // Load
  // ---------------------------------------------------------------------------

  /** score_rocks (14/14.py:64-67): row r, counted from the top, weighs the height minus r. */
  function ScoreRocks(m: Grid): nat
  {
    RowScores(m, 0)
  }

  function RowScores(m: Grid, r: nat): nat
    requires r <= |m|
    decreases |m| - r
  {
    if r == |m| then 0 else (|m| - r) * Count(m[r], 'O') + RowScores(m, r + 1)
  }

  /** Each cell's load: a round rock in row r weighs the height minus r, anything else nothing. */
  function CellLoad(m: Grid, r: nat, c: nat): nat
    requires r < |m| && c < |m[r]|
  {
    if m[r][c] == 'O' then |m| - r else 0
  }

  /** The loads of the cells of row r from column c on, then of all later rows. */
  function CellLoads(m: Grid, r: nat, c: nat): nat
    requires r <= |m| && (r < |m| ==> c <= |m[r]|)
    decreases |m| - r, if r < |m| then |m[r]| - c else 0
  {
    if r == |m| then 0
    else if c == |m[r]| then CellLoads(m, r + 1, 0)
    else CellLoad(m, r, c) + CellLoads(m, r, c + 1)
  }

  /** The load is the sum of the loads of all cells. */
  lemma {:induction false} ScoreByCells(m: Grid)
    ensures ScoreRocks(m) == CellLoads(m, 0, 0)
  {
    RowsByCells(m, 0);
  }

  lemma {:induction false} RowsByCells(m: Grid, r: nat)
    requires r <= |m|
    ensures RowScores(m, r) == CellLoads(m, r, 0)
    decreases |m| - r
  {
    if r < |m| {
      RowsByCells(m, r + 1);
      RowByCells(m, r, 0);
      assert m[r][0..] == m[r];
    }
  }

  lemma {:induction false} RowByCells(m: Grid, r: nat, c: nat)
    requires r < |m| && c <= |m[r]|
    ensures CellLoads(m, r, c) == (|m| - r) * Count(m[r][c..], 'O') + CellLoads(m, r + 1, 0)
    decreases |m[r]| - c
  {
    if c < |m[r]| {
      RowByCells(m, r, c + 1);
      var w, here := |m| - r, if m[r][c] == 'O' then 1 else 0;
      assert m[r][c..][1..] == m[r][c + 1..];
      assert Count(m[r][c..], 'O') == here + Count(m[r][c + 1..], 'O');
      assert w * Count(m[r][c..], 'O') == w * here + w * Count(m[r][c + 1..], 'O');
    }
  }

  // ---------------------------------------------------------------------------
  // The two parts
  // ---------------------------------------------------------------------------

  /** part_one (14/14.py:70-75): the load after tilting north. */
  method PartOne(rocks: Grid) returns (score: nat)
    requires IsGrid(rocks)
    ensures score == ScoreRocks(North(rocks))
  {
    var tilted := TiltNorth(rocks);
    score := ScoreRocks(tilted);
  }

  /**
   * part_two (14/14.py:82-108): spins the platform, remembering each platform
   * seen with the cycle it was seen at; on the first repeat it skips whole
   * periods and spins only the remainder.  totalIterations is 1000000000 in
   * the source.
   */
  method PartTwo(start: Grid, totalIterations: nat) returns (score: nat)
    requires IsGrid(start)
    ensures score == ScoreRocks(Cycles(start, totalIterations))
  {
    var rocks := start;
    var seen: map<Grid, (nat, Grid)> := map[];
    var i := 0;
    while i < totalIterations
      invariant i <= totalIterations && rocks == Cycles(start, i) && IsGrid(rocks)
      invariant Remembers(seen, start, i)
    {
      var key := rocks;
      if key in seen {
        score := SkipRepeats(start, rocks, seen[key].0, i, totalIterations);
        return;
      }
      CyclesNext(start, i);
      rocks := IterateRocks(rocks);
      RememberNext(seen, start, i);
      seen := seen[key := (i, rocks)];
      i := i + 1;
    }
    assert i == totalIterations;
    score := ScoreRocks(rocks);
  }

  /** Every platform in seen is the one after the cycles it was seen at, stored with the next one, before cycle i. */
  ghost predicate Remembers(seen: map<Grid, (nat, Grid)>, start: Grid, i: nat)
  {
    forall key | key in seen ::
      seen[key].0 < i && key == Cycles(start, seen[key].0) && seen[key].1 == Cycles(start, seen[key].0 + 1)
  }

  lemma {:induction false} RememberNext(seen: map<Grid, (nat, Grid)>, start: Grid, i: nat)
    requires Remembers(seen, start, i)
    ensures Remembers(seen[Cycles(start, i) := (i, Cycles(start, i + 1))], start, i + 1)
  {
  }

  /**
   * The repeat branch of part_two (14/14.py:88-102): the platform after i
   * cycles was already seen after previousNum cycles, so only the remainder
   * of the remaining cycles modulo the period is spun.
   */
  method SkipRepeats(start: Grid, rocks: Grid, previousNum: nat, i: nat, totalIterations: nat) returns (score: nat)
    requires IsGrid(start) && previousNum < i < totalIterations
    requires rocks == Cycles(start, i) && rocks == Cycles(start, previousNum)
    ensures score == ScoreRocks(Cycles(start, totalIterations))
  {
    var cycleLength := i - previousNum;
    var remainingIterations := totalIterations - i;
    var modIterations := remainingIterations % cycleLength;
    SkipCycles(start, previousNum, i, totalIterations, modIterations);
    CyclesShape(start, i);
    var spun := SpinTimes(rocks, modIterations);
    score := ScoreRocks(spun);
  }

  /** Spins the platform count times (14/14.py:99-100). */
  method SpinTimes(rocks: Grid, count: nat) returns (spun: Grid)
    requires IsGrid(rocks)
    ensures spun == Iterate(Spin, rocks, count)
  {
    spun := rocks;
    for k := 0 to count
      invariant spun == Iterate(Spin, rocks, k) && IsGrid(spun)
    {
      CyclesNext(rocks, k);
      spun := IterateRocks(spun);
    }
  }

  /** One more spin cycle, on a grid that stays a grid. */
  lemma {:induction false} CyclesNext(m: Grid, n: nat)
    requires IsGrid(m)
    ensures IsGrid(Cycles(m, n)) && Cycles(m, n + 1) == Cycle(Cycles(m, n))
  {
    CyclesShape(m, n);
  }

  /**
   * The cycle skipping of part_two: when the platform after p cycles comes
   * back after i cycles, spinning (total - i) % (i - p) more cycles from i
   * reaches the platform after total cycles.
   */
  lemma {:induction false} SkipCycles(m: Grid, p: nat, i: nat, total: nat, skip: nat)
    requires p < i <= total && Cycles(m, p) == Cycles(m, i) && skip == (total - i) % (i - p)
    ensures Iterate(Spin, Cycles(m, i), skip) == Cycles(m, total)
  {
    IterateAdd(Spin, m, i, skip);
    IterateRepeat(Spin, m, p, i, total);
    IterateRepeat(Spin, m, p, i, i + (total - i) % (i - p));
    ModShift(p, i, total);
  }
}
