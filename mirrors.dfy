/**
 * Point of Incidence (13/13.py): a block of ash (0) and rocks (1) is
 * mirrored vertically at a column position when every row reads the same
 * leftwards from it as rightwards, as far as the shorter side reaches.  The
 * score of a block is its mirror column, or 100 times its mirror row (a
 * mirror column of the transposed block).  Part two looks for the one cell
 * whose flip makes a position a mirror point of the one row that lacked it.
 */
module Mirrors {

  import opened Failures

  type Block = seq<seq<int>>

  function Min(a: int, b: int): int
  {
    if a < b then a else b
  }

  function Max(a: int, b: int): int
  {
    if a < b then b else a
  }

  /** right[::-1] */
  function Reverse(s: seq<int>): (r: seq<int>)
    ensures |r| == |s|
    ensures forall k | 0 <= k < |s| :: r[k] == s[|s| - 1 - k]
  {
    if s == [] then [] else Reverse(s[1..]) + [s[0]]
  }

  // ---------------------------------------------------------------------------
  // mirror_points_for_line
  // ---------------------------------------------------------------------------

  /** The segment left of i equals the segment right of i read backwards, each as long as the shorter side. */
  predicate IsMirrorPoint(line: seq<int>, i: int)
    requires 1 <= i < |line|
  {
    var half := Min(i, |line| - i);
    line[Max(0, i - half)..i] == Reverse(line[i..Min(|line|, i + half)])
  }

  /** The mirror points of a line. */
  function MirrorSet(line: seq<int>): set<int>
  {
    set i | 1 <= i < |line| && IsMirrorPoint(line, i)
  }

  /** The j-th cell left of i equals the j-th cell right of it. */
  predicate Reflects(line: seq<int>, i: int, j: int)
    requires 0 <= j && j < i && i + j < |line|
  {
    line[i - 1 - j] == line[i + j]
  }

  /** A mirror point pairs the j-th cell left of it with the j-th cell right of it. */
  lemma {:induction false} MirrorPointPairs(line: seq<int>, i: int)
    requires 1 <= i < |line|
    ensures IsMirrorPoint(line, i) <==> forall j | 0 <= j < Min(i, |line| - i) :: Reflects(line, i, j)
  {
    var half := Min(i, |line| - i);
    assert Max(0, i - half) == i - half && Min(|line|, i + half) == i + half;
    var left, right := line[i - half..i], Reverse(line[i..i + half]);
    assert IsMirrorPoint(line, i) <==> left == right;
    HalvesAt(line, i, half, left, right);
  }

  /** The two halves around i, cell by cell. */
  lemma {:induction false} HalvesAt(line: seq<int>, i: int, half: nat, left: seq<int>, right: seq<int>)
    requires 1 <= i < |line| && half == Min(i, |line| - i)
    requires left == line[i - half..i] && right == Reverse(line[i..i + half])
    ensures left == right <==> forall j | 0 <= j < half :: Reflects(line, i, j)
  {
    if forall j | 0 <= j < half :: Reflects(line, i, j) {
      forall k | 0 <= k < half
        ensures left[k] == right[k]
      {
        HalvesCell(line, i, half, left, right, half - 1 - k);
      }
    }
    if left == right {
      forall j | 0 <= j < half
        ensures Reflects(line, i, j)
      {
        HalvesCell(line, i, half, left, right, j);
      }
    }
  }

  /** Cell half - 1 - j of the halves compares the j-th cells either side of i. */
  lemma {:induction false} HalvesCell(line: seq<int>, i: int, half: nat, left: seq<int>, right: seq<int>, j: int)
    requires 1 <= i < |line| && half == Min(i, |line| - i) && 0 <= j < half
    requires left == line[i - half..i] && right == Reverse(line[i..i + half])
    ensures left[half - 1 - j] == right[half - 1 - j] <==> Reflects(line, i, j)
  {
    assert left[half - 1 - j] == line[i - 1 - j];
    assert right[half - 1 - j] == line[i..i + half][j];
  }

  /** Mirror points lie strictly inside the line, so a line of length at most 1 has none. */
  lemma {:induction false} MirrorPointsInside(line: seq<int>)
    ensures forall i | i in MirrorSet(line) :: 1 <= i < |line|
    ensures |line| <= 1 ==> MirrorSet(line) == {}
  {
  }

  /** mirror_points_for_line: every position that mirrors the line. */
  method MirrorPointsForLine(line: seq<int>) returns (points: set<int>)
    ensures points == MirrorSet(line)
  {
    points := {};
    var length := |line|;
    var i := 1;
    while i < length
      invariant 1 <= i && (length >= 1 ==> i <= length)
      invariant forall k :: k in points <==> 1 <= k < i && k < length && IsMirrorPoint(line, k)
    {
      var half := Min(i, length - i);
      var left := line[Max(0, i - half)..i];
      var right := line[i..Min(length, i + half)];
      SidesAt(line, i, left, right);
      if left == Reverse(right) {
        points := points + {i};
      }
      i := i + 1;
    }
    assert forall k :: k in points <==> k in MirrorSet(line);
  }

  /** The two sides the loop of mirror_points_for_line compares are those of the definition. */
  lemma {:induction false} SidesAt(line: seq<int>, i: int, left: seq<int>, right: seq<int>)
    requires 1 <= i < |line|
    requires left == line[Max(0, i - Min(i, |line| - i))..i]
    requires right == line[i..Min(|line|, i + Min(i, |line| - i))]
    ensures left == Reverse(right) <==> IsMirrorPoint(line, i)
  {
  }

  // ---------------------------------------------------------------------------
  // mirror_counts_for_block
  // ---------------------------------------------------------------------------

  /** How many of the first n rows have p as a mirror point. */
  function RowsWithin(block: Block, p: int, n: nat): (count: nat)
    requires n <= |block|
    ensures count <= n
  {
    if n == 0 then 0 else RowsWithin(block, p, n - 1) + if p in MirrorSet(block[n - 1]) then 1 else 0
  }

  /** The Counter's value at p: how many rows have p as a mirror point. */
  function RowsWith(block: Block, p: int): nat
  {
    RowsWithin(block, p, |block|)
  }

  /** Counter.update with a set: one more for each of its elements. */
  function Update(counts: map<int, nat>, points: set<int>): (c: map<int, nat>)
    ensures c.Keys == counts.Keys + points
  {
    map p | p in counts.Keys + points :: (if p in counts then counts[p] else 0) + (if p in points then 1 else 0)
  }

  /**
   * mirror_counts_for_block: the mirror points of each row, and for each
   * position that is a mirror point of some row the number of rows it mirrors.
   */
  method MirrorCountsForBlock(block: Block) returns (sets: seq<set<int>>, counts: map<int, nat>)
    ensures |sets| == |block| && forall r | 0 <= r < |block| :: sets[r] == MirrorSet(block[r])
    ensures forall p :: p in counts <==> RowsWith(block, p) > 0
    ensures forall p | p in counts :: counts[p] == RowsWith(block, p)
  {
    sets := [];
    counts := map[];
    for r := 0 to |block|
      invariant |sets| == r && forall k | 0 <= k < r :: sets[k] == MirrorSet(block[k])
      invariant forall p :: p in counts <==> RowsWithin(block, p, r) > 0
      invariant forall p | p in counts :: counts[p] == RowsWithin(block, p, r)
    {
      var points := MirrorPointsForLine(block[r]);
      sets := sets + [points];
      counts := Update(counts, points);
    }
  }

  /** p counts every row exactly when every row has p as a mirror point. */
  lemma {:induction false} AllRowsCounted(block: Block, p: int, n: nat)
    requires n <= |block|
    ensures RowsWithin(block, p, n) == n <==> forall k | 0 <= k < n :: p in MirrorSet(block[k])
  {
    if n > 0 {
      AllRowsCounted(block, p, n - 1);
    }
  }

  /** Two rows lacking p keep p's count at least two short of the rows. */
  lemma {:induction false} TwoRowsMissing(block: Block, p: int, n: nat, a: nat, b: nat)
    requires n <= |block| && a < b < n
    requires p !in MirrorSet(block[a]) && p !in MirrorSet(block[b])
    ensures RowsWithin(block, p, n) <= n - 2
  {
    if b < n - 1 {
      TwoRowsMissing(block, p, n - 1, a, b);
    } else {
      OneRowMissing(block, p, n - 1, a);
    }
  }

  lemma {:induction false} OneRowMissing(block: Block, p: int, n: nat, a: nat)
    requires n <= |block| && a < n && p !in MirrorSet(block[a])
    ensures RowsWithin(block, p, n) <= n - 1
  {
    if a < n - 1 {
      OneRowMissing(block, p, n - 1, a);
    }
  }

  // ---------------------------------------------------------------------------
  // mirror_points_for_block and score_for_block
  // ---------------------------------------------------------------------------

  /** set.intersection(*sets) of at least one set. */
  function Intersection(sets: seq<set<int>>): (common: set<int>)
    requires sets != []
    ensures forall p :: p in common <==> forall k | 0 <= k < |sets| :: p in sets[k]
  {
    if |sets| == 1 then sets[0]
    else
      var rest := Intersection(sets[1..]);
      assert forall k | 1 <= k < |sets| :: sets[1..][k - 1] == sets[k];
      sets[0] * rest
  }

  /** p is a mirror point of every row of a block that has rows: the block is mirrored at p. */
  predicate Mirrored(block: Block, p: int)
  {
    block != [] && forall k | 0 <= k < |block| :: p in MirrorSet(block[k])
  }

  /** A block is mirrored at p exactly when p counts every one of its rows. */
  lemma {:induction false} MirroredIsFullCount(block: Block, p: int)
    requires block != []
    ensures Mirrored(block, p) <==> RowsWith(block, p) == |block|
  {
    AllRowsCounted(block, p, |block|);
  }

  /**
   * mirror_points_for_block: the positions mirroring every row; TypeError for
   * a block without rows, as set.intersection needs at least one set.
   */
  method MirrorPointsForBlock(block: Block) returns (r: Outcome<set<int>>)
    ensures block == [] <==> r.Failure?
    ensures r.Failure? ==> r.error == TypeError
    ensures r.Success? ==> forall p :: p in r.value <==> Mirrored(block, p)
  {
    var sets, counts := MirrorCountsForBlock(block);
    if sets == [] {
      return Failure(TypeError);
    }
    return Success(Intersection(sets));
  }

  /** A set without elements is the empty set, so a set.pop on a non-empty set has something to take. */
  lemma {:induction false} EmptyWhenNoElement(s: set<int>)
    ensures (forall x :: x !in s) ==> s == {}
  {
    if forall x :: x !in s {
      assert forall x :: x in s <==> x in {};
    }
  }

  predicate Rectangular(block: Block)
  {
    forall r | 0 <= r < |block| :: |block[r]| == |block[0]|
  }

  function Width(block: Block): nat
  {
    if block == [] then 0 else |block[0]|
  }

  /** block.T: the columns of the block as rows. */
  function Transpose(block: Block): (t: Block)
    requires Rectangular(block)
    ensures |t| == Width(block) && Rectangular(t) && Width(t) == (if t == [] then 0 else |block|)
    ensures forall c | 0 <= c < |t| :: |t[c]| == |block| && forall r | 0 <= r < |block| :: t[c][r] == block[r][c]
  {
    seq(Width(block), c requires 0 <= c < Width(block) => seq(|block|, r requires 0 <= r < |block| => block[r][c]))
  }

  /** Transposing twice gives back a block whose rows are not empty. */
  lemma {:induction false} TransposeTwice(block: Block)
    requires Rectangular(block) && Width(block) > 0
    ensures Transpose(Transpose(block)) == block
  {
    var t := Transpose(Transpose(block));
    assert |t| == |block|;
    forall r | 0 <= r < |block|
      ensures t[r] == block[r]
    {
    }
  }

  /**
   * score_for_block: some vertical mirror position, else 100 times some
   * horizontal one, else ValueError; TypeError when the block, or after
   * finding no vertical mirror its transpose, has no rows.
   */
  method ScoreForBlock(block: Block) returns (r: Outcome<int>)
    requires Rectangular(block)
    ensures r.Success? && (exists p :: Mirrored(block, p)) ==> Mirrored(block, r.value)
    ensures r.Success? && !(exists p :: Mirrored(block, p)) ==>
      exists h :: Mirrored(Transpose(block), h) && r.value == 100 * h
    ensures r.Success? <==> (exists p :: Mirrored(block, p)) || (exists h :: Mirrored(Transpose(block), h))
    ensures r.Failure? ==> r.error == if Width(block) == 0 then TypeError else ValueError
  {
    var vertical := MirrorPointsForBlock(block);
    if vertical.Failure? {
      return Failure(vertical.error);
    }
    if vertical.value != {} {
      EmptyWhenNoElement(vertical.value);
      var column :| column in vertical.value;
      return Success(column);
    }
    var horizontal := MirrorPointsForBlock(Transpose(block));
    if horizontal.Failure? {
      assert Width(block) == 0;
      return Failure(horizontal.error);
    }
    if horizontal.value != {} {
      EmptyWhenNoElement(horizontal.value);
      var row :| row in horizontal.value;
      return Success(row * 100);
    }
    return Failure(ValueError);
  }

  // ---------------------------------------------------------------------------
  // find_smudge_for_block and score_for_smudged_block
  // ---------------------------------------------------------------------------

  /** fixed_line[i] = 1 - fixed_line[i] on a copy of the line. */
  function Flip(line: seq<int>, i: nat): seq<int>
    requires i < |line|
  {
    line[i := 1 - line[i]]
  }

  /** The flip changes exactly cell i, and flipping it again restores the line. */
  lemma {:induction false} FlipOneCell(line: seq<int>, i: nat)
    requires i < |line|
    ensures |Flip(line, i)| == |line| && Flip(line, i)[i] != line[i]
    ensures forall k | 0 <= k < |line| && k != i :: Flip(line, i)[k] == line[k]
    ensures Flip(Flip(line, i), i) == line
  {
  }

  /**
   * Flipping cell i of row, the one row of a block of at least two rows
   * that does not have p as a mirror point while all others do, makes p a
   * mirror point of that row.
   */
  predicate Fixes(block: Block, p: int, row: int, i: int)
  {
    && |block| >= 2 && RowsWith(block, p) == |block| - 1
    && 0 <= row < |block| && p !in MirrorSet(block[row])
    && 0 <= i < |block[row]| && p in MirrorSet(Flip(block[row], i))
  }

  /** The first row that does not have p as a mirror point: the next(...) over enumerate(sets). */
  function FirstWithout(sets: seq<set<int>>, p: int): (row: nat)
    requires exists k | 0 <= k < |sets| :: p !in sets[k]
    ensures row < |sets| && p !in sets[row] && forall k | 0 <= k < row :: p in sets[k]
  {
    if p !in sets[0] then 0
    else
      assert exists k | 0 <= k < |sets[1..]| :: p !in sets[1..][k] by {
        var k :| 0 <= k < |sets| && p !in sets[k];
        assert sets[1..][k - 1] == sets[k];
      }
      1 + FirstWithout(sets[1..], p)
  }

  /** A count one short of the rows leaves exactly one row without p. */
  lemma {:induction false} OnlyRowWithout(block: Block, p: int, row: nat)
    requires row < |block| && p !in MirrorSet(block[row]) && RowsWith(block, p) == |block| - 1
    ensures forall k | 0 <= k < |block| && k != row :: p in MirrorSet(block[k])
  {
    forall k | 0 <= k < |block| && k != row
      ensures p in MirrorSet(block[k])
    {
      if p !in MirrorSet(block[k]) {
        if k < row {
          TwoRowsMissing(block, p, |block|, k, row);
        } else {
          TwoRowsMissing(block, p, |block|, row, k);
        }
      }
    }
  }

  /** Fixing the smudge a smudge search returns makes the whole block mirrored at its position. */
  lemma {:induction false} SmudgeFixesBlock(block: Block, p: int, row: nat, i: nat)
    requires Fixes(block, p, row, i)
    ensures Mirrored(block[row := Flip(block[row], i)], p)
    ensures !Mirrored(block, p)
  {
    OnlyRowWithout(block, p, row);
  }

  /** Some flip of one cell repairs the block at p, in the sense of Fixes. */
  ghost predicate Repairable(block: Block, p: int)
  {
    exists row, i :: Fixes(block, p, row, i)
  }

  /** No position among the first k of order is repairable. */
  ghost predicate NoneRepairableBefore(block: Block, order: seq<int>, k: int)
    requires 0 <= k <= |order|
  {
    forall j | 0 <= j < k :: !Repairable(block, order[j])
  }

  /** The first repairable position of order, the one a search in that order settles on. */
  ghost function FirstRepairable(block: Block, order: seq<int>): (p: Option<int>)
    ensures p.None? <==> NoneRepairableBefore(block, order, |order|)
    ensures p.Some? ==> exists k | 0 <= k < |order| ::
      order[k] == p.value && Repairable(block, order[k]) && NoneRepairableBefore(block, order, k)
    decreases |order|
  {
    if order == [] then None
    else if Repairable(block, order[0]) then
      assert NoneRepairableBefore(block, order, 0);
      Some(order[0])
    else
      var rest := FirstRepairable(block, order[1..]);
      assert forall j | 1 <= j < |order| :: order[1..][j - 1] == order[j];
      rest
  }

  /** A repairable position with none repairable before it is the first repairable position. */
  lemma {:induction false} FirstRepairableAt(block: Block, order: seq<int>, k: int)
    requires 0 <= k < |order| && NoneRepairableBefore(block, order, k) && Repairable(block, order[k])
    ensures FirstRepairable(block, order) == Some(order[k])
  {
    var p := FirstRepairable(block, order);
    assert !NoneRepairableBefore(block, order, |order|);
    var k' :| 0 <= k' < |order| && order[k'] == p.value && Repairable(block, order[k'])
      && NoneRepairableBefore(block, order, k');
    assert !(k' < k) && !(k < k');
  }

  /** One more position that is not repairable extends the stretch without any. */
  lemma {:induction false} NoneRepairableStep(block: Block, order: seq<int>, k: int)
    requires 0 <= k < |order| && NoneRepairableBefore(block, order, k)
    requires forall row, i :: !Fixes(block, order[k], row, i)
    ensures NoneRepairableBefore(block, order, k + 1)
  {
  }

  /** When order lists every counted position and none of them is repairable, no flip repairs the block anywhere. */
  lemma {:induction false} NoneRepairableAnywhere(block: Block, order: seq<int>)
    requires forall p :: p in order <==> RowsWith(block, p) > 0
    requires NoneRepairableBefore(block, order, |order|)
    ensures forall p, row, i :: !Fixes(block, p, row, i)
  {
    forall p, row, i
      ensures !Fixes(block, p, row, i)
    {
      if p in order {
        var j :| 0 <= j < |order| && order[j] == p;
        assert !Repairable(block, order[j]);
      }
    }
  }

  /**
   * find_smudge_for_block: going through the positions in the Counter's
   * order (order lists exactly the positions it counts), the first position
   * counted for all rows but one, with the first cell of that row whose flip
   * makes it a mirror point of the row; None when there is none.
   */
  method FindSmudge(block: Block, order: seq<int>) returns (r: Option<(int, (nat, nat))>)
    requires Rectangular(block)
    requires forall p :: p in order <==> RowsWith(block, p) > 0
    ensures r.Some? ==> Fixes(block, r.value.0, r.value.1.0, r.value.1.1)
    ensures r.Some? ==> forall i | 0 <= i < r.value.1.1 :: !Fixes(block, r.value.0, r.value.1.0, i)
    ensures r.Some? ==> FirstRepairable(block, order) == Some(r.value.0)
    ensures r.None? ==> FirstRepairable(block, order) == None
    ensures r.None? ==> forall p, row, i :: !Fixes(block, p, row, i)
  {
    var sets, counts := MirrorCountsForBlock(block);
    var expected := |block| - 1;
    for k := 0 to |order|
      invariant NoneRepairableBefore(block, order, k)
    {
      var position := order[k];
      var smudge := SmudgeAt(block, sets, counts, expected, position);
      if smudge.Some? {
        FirstRepairableAt(block, order, k);
        return Some((position, smudge.value));
      }
      NoneRepairableStep(block, order, k);
    }
    NoneRepairableAnywhere(block, order);
    return None;
  }

  /**
   * One position of find_smudge_for_block: when its count is one short of
   * the rows, the first row without it and the first cell of that row whose
   * flip makes it a mirror point of the row.
   */
  method SmudgeAt(block: Block, sets: seq<set<int>>, counts: map<int, nat>, expected: int, position: int)
    returns (r: Option<(nat, nat)>)
    requires expected == |block| - 1 && position in counts
    requires |sets| == |block| && forall r | 0 <= r < |block| :: sets[r] == MirrorSet(block[r])
    requires forall p :: p in counts <==> RowsWith(block, p) > 0
    requires forall p | p in counts :: counts[p] == RowsWith(block, p)
    ensures r.Some? ==> Fixes(block, position, r.value.0, r.value.1)
    ensures r.Some? ==> forall i | 0 <= i < r.value.1 :: !Fixes(block, position, r.value.0, i)
    ensures r.None? ==> forall row, i :: !Fixes(block, position, row, i)
  {
    if counts[position] != expected {
      return None;
    }
    AllRowsCounted(block, position, |block|);
    assert exists row | 0 <= row < |sets| :: position !in sets[row];
    var smudgedRow := FirstWithout(sets, position);
    var fix := FirstFix(block[smudgedRow], position);
    if fix.Some? {
      return Some((smudgedRow, fix.value));
    }
    NoFixFor(block, position, smudgedRow);
    return None;
  }

  /** The inner loop of find_smudge_for_block: the first cell whose flip makes position a mirror point of the line. */
  method FirstFix(line: seq<int>, position: int) returns (r: Option<nat>)
    ensures r.Some? ==> r.value < |line| && position in MirrorSet(Flip(line, r.value))
    ensures r.Some? ==> forall i | 0 <= i < r.value :: position !in MirrorSet(Flip(line, i))
    ensures r.None? ==> forall i | 0 <= i < |line| :: position !in MirrorSet(Flip(line, i))
  {
    for i := 0 to |line|
      invariant forall i' | 0 <= i' < i :: position !in MirrorSet(Flip(line, i'))
    {
      var fixedLine := Flip(line, i);
      var points := MirrorPointsForLine(fixedLine);
      if position in points {
        return Some(i);
      }
    }
    return None;
  }

  /** When no flip in the one row without p makes p its mirror point, no cell fixes p. */
  lemma {:induction false} NoFixFor(block: Block, p: int, row: nat)
    requires row < |block| && p !in MirrorSet(block[row]) && RowsWith(block, p) == |block| - 1
    requires forall i | 0 <= i < |block[row]| :: p !in MirrorSet(Flip(block[row], i))
    ensures forall row', i :: !Fixes(block, p, row', i)
  {
    OnlyRowWithout(block, p, row);
  }

  /**
   * score_for_smudged_block: the position of a vertical smudge, else 100
   * times that of a horizontal one, else ValueError.  order and orderT list
   * the positions counted for the block and for its transpose.
   */
  method ScoreForSmudgedBlock(block: Block, order: seq<int>, orderT: seq<int>) returns (r: Outcome<int>)
    requires Rectangular(block)
    requires forall p :: p in order <==> RowsWith(block, p) > 0
    requires forall p :: p in orderT <==> RowsWith(Transpose(block), p) > 0
    ensures r.Success? && (exists p, row, i :: Fixes(block, p, row, i)) ==>
      exists row, i :: Fixes(block, r.value, row, i)
    ensures r.Success? && !(exists p, row, i :: Fixes(block, p, row, i)) ==>
      exists h, row, i :: Fixes(Transpose(block), h, row, i) && r.value == 100 * h
    ensures r.Failure? <==> !(exists p, row, i :: Fixes(block, p, row, i)) && !(exists p, row, i :: Fixes(Transpose(block), p, row, i))
    ensures r.Failure? ==> r.error == ValueError
    ensures FirstRepairable(block, order).Some? ==> r == Success(FirstRepairable(block, order).value)
    ensures FirstRepairable(block, order).None? && FirstRepairable(Transpose(block), orderT).Some? ==>
      r == Success(100 * FirstRepairable(Transpose(block), orderT).value)
    ensures r == Failure(ValueError) <==>
      FirstRepairable(block, order).None? && FirstRepairable(Transpose(block), orderT).None?
  {
    var results := FindSmudge(block, order);
    if results.Some? {
      var (column, smudge) := results.value;
      return Success(column);
    }
    results := FindSmudge(Transpose(block), orderT);
    if results.Some? {
      var (row, smudge) := results.value;
      return Success(row * 100);
    }
    return Failure(ValueError);
  }
}
