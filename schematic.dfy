/**
 * Gear ratios (03/03.py): an engine schematic is read one character at a
 * time through a one-character look-ahead stream.  Each maximal run of digits
 * becomes a number spanning columns x1..x2 of its line, and every other
 * character except '.' and the newline becomes a part at its column and line
 * (columns counted from 1, lines from 0).  A number is adjacent to a part
 * whose cell touches the number's span, diagonals included; a gear is a '*'
 * part with exactly two adjacent numbers, and its ratio is their product.
 */
module Schematic {

  import opened Failures

  datatype Part = Part(symbol: char, x: int, y: int)

  datatype Number = Number(number: nat, x1: int, x2: int, y: int)

  predicate IsDigit(c: char)
  {
    '0' <= c <= '9'
  }

  /** is_adjacent: the part lies in the number's box widened by one on every side. */
  predicate IsAdjacent(n: Number, p: Part)
  {
    n.x1 - 1 <= p.x && n.x2 + 1 >= p.x && n.y - 1 <= p.y && n.y + 1 >= p.y
  }

  function Abs(a: int): nat
  {
    if a < 0 then -a else a
  }

  /** The part is within one step, in each direction, of the number's digit in column col. */
  predicate Touches(n: Number, p: Part, col: int)
  {
    n.x1 <= col <= n.x2 && Abs(col - p.x) <= 1 && Abs(n.y - p.y) <= 1
  }

  /** A part is adjacent to a number exactly when it touches one of the number's own cells. */
  lemma {:induction false} AdjacentIffTouching(n: Number, p: Part)
    requires n.x1 <= n.x2
    ensures IsAdjacent(n, p) <==> exists col :: Touches(n, p, col)
  {
    if IsAdjacent(n, p) {
      var col := if p.x < n.x1 then n.x1 else if p.x > n.x2 then n.x2 else p.x;
      assert Touches(n, p, col);
    }
  }

  // ---------------------------------------------------------------------------
  // The look-ahead stream
  // ---------------------------------------------------------------------------

  /** What read(1) returns for a text: its first character, or "" at the end. */
  function Head(s: string): (h: string)
    ensures |h| <= 1 && h <= s && (h == [] <==> s == [])
  {
    if s == [] then [] else [s[0]]
  }

  /** peekable: a text stream with at most one character read ahead. */
  class Peekable {
    /** What the underlying stream has not yet handed out. */
    var stream: string
    /** The character read ahead by peek, "" when it met the end of the stream. */
    var ahead: Option<string>

    ghost predicate Valid()
      reads this
    {
      ahead.Some? ==> |ahead.value| <= 1 && (ahead.value == [] ==> stream == [])
    }

    /** Every character still to be returned, the one read ahead first. */
    function Rest(): string
      reads this
    {
      (if ahead.Some? then ahead.value else []) + stream
    }

    constructor (text: string)
      ensures Valid() && Rest() == text
    {
      stream := text;
      ahead := None;
    }

    /** stream.read(1). */
    method Read() returns (c: string)
      modifies this`stream
      ensures c == Head(old(stream)) && stream == old(stream)[|c|..]
    {
      c := Head(stream);
      stream := stream[|c|..];
    }

    /** next: hand out the character read ahead, if any, else read one. */
    method Next() returns (c: string)
      requires Valid()
      modifies this
      ensures Valid()
      ensures c == Head(old(Rest())) && Rest() == old(Rest())[|c|..]
    {
      if ahead.Some? {
        c := ahead.value;
        ahead := None;
        return;
      }
      c := Read();
    }

    /** peek: read one character ahead unless one already is. */
    method Peek() returns (c: string)
      requires Valid()
      modifies this
      ensures Valid() && Rest() == old(Rest())
      ensures c == Head(Rest())
    {
      if ahead.None? {
        var read := Read();
        ahead := Some(read);
      }
      c := ahead.value;
    }

    /** __bool__: whether anything is left. */
    method NonEmpty() returns (b: bool)
      requires Valid()
      modifies this
      ensures Valid() && Rest() == old(Rest())
      ensures b <==> Rest() != []
    {
      var c := Peek();
      b := c != [];
    }
  }

  // ---------------------------------------------------------------------------
  // Where each character sits, and what the schematic holds
  // ---------------------------------------------------------------------------

  /** The index just past the last newline among the first i characters (0 if none). */
  function LineStart(s: string, i: nat): (start: nat)
    requires i <= |s|
    ensures start <= i
  {
    if i == 0 then 0 else if s[i - 1] == '\n' then i else LineStart(s, i - 1)
  }

  /** The line of character i: the number of newlines before it. */
  function Row(s: string, i: nat): nat
    requires i <= |s|
  {
    if i == 0 then 0 else Row(s, i - 1) + (if s[i - 1] == '\n' then 1 else 0)
  }

  /** The column of character i, counting from 1 at the start of its line. */
  function Col(s: string, i: nat): int
    requires i < |s|
  {
    i - LineStart(s, i) + 1
  }

  /** A character that marks a part: neither a digit, nor '.', nor a newline. */
  predicate IsSymbol(c: char)
  {
    c != '\n' && c != '.' && !IsDigit(c)
  }

  /** The index just past the run of digits starting at i. */
  function RunEnd(s: string, i: nat): (j: nat)
    requires i <= |s|
    ensures i <= j <= |s| && (j == |s| || !IsDigit(s[j]))
    ensures forall k | i <= k < j :: IsDigit(s[k])
    decreases |s| - i
  {
    if i < |s| && IsDigit(s[i]) then RunEnd(s, i + 1) else i
  }

  /** next(chars), then the peek of the loop condition that follows it. */
  method NextThenPeek(chars: Peekable, ghost text: string, ghost i: nat) returns (d: string, peeked: string)
    requires chars.Valid() && i < |text| && chars.Rest() == text[i..]
    modifies chars
    ensures chars.Valid() && chars.Rest() == text[i + 1..]
    ensures d == [text[i]] && peeked == Head(text[i + 1..])
  {
    DropHead(text, i);
    d := chars.Next();
    peeked := chars.Peek();
  }

  /** Handing out the first of the characters from i leaves those from i + 1. */
  lemma {:induction false} DropHead(text: string, i: nat)
    requires i < |text|
    ensures Head(text[i..]) == [text[i]] && text[i..][|Head(text[i..])|..] == text[i + 1..]
  {
  }

  /** A stretch of digits from i to j that cannot be extended ends the run from i. */
  lemma {:induction false} RunEndAt(s: string, i: nat, j: nat)
    requires i <= j <= |s| && (j == |s| || !IsDigit(s[j]))
    requires forall k | i <= k < j :: IsDigit(s[k])
    ensures RunEnd(s, i) == j
    decreases j - i
  {
    if i < j {
      RunEndAt(s, i + 1, j);
    }
  }

  /** A maximal run of digits starts at i. */
  predicate RunStart(s: string, i: nat)
  {
    i < |s| && IsDigit(s[i]) && (i == 0 || !IsDigit(s[i - 1]))
  }

  function DigitValue(c: char): nat
    requires IsDigit(c)
  {
    c as int - '0' as int
  }

  /** int(digits): the decimal value of a string of digits. */
  function Value(digits: string): nat
    requires forall k | 0 <= k < |digits| :: IsDigit(digits[k])
  {
    if digits == [] then 0
    else 10 * Value(digits[..|digits| - 1]) + DigitValue(digits[|digits| - 1])
  }

  /** The number whose digits run from index i. */
  function NumberAt(s: string, i: nat): Number
    requires RunStart(s, i)
  {
    var j := RunEnd(s, i);
    Number(Value(s[i..j]), Col(s, i), Col(s, j - 1), Row(s, i))
  }

  /** The parts marked by the first n characters, in order. */
  function PartsBefore(s: string, n: nat): seq<Part>
    requires n <= |s|
  {
    if n == 0 then []
    else PartsBefore(s, n - 1) + (if IsSymbol(s[n - 1]) then [Part(s[n - 1], Col(s, n - 1), Row(s, n - 1))] else [])
  }

  /** The numbers whose runs start among the first n characters, in order. */
  function NumbersBefore(s: string, n: nat): seq<Number>
    requires n <= |s|
  {
    if n == 0 then []
    else NumbersBefore(s, n - 1) + (if RunStart(s, n - 1) then [NumberAt(s, n - 1)] else [])
  }

  /** Position i does not fall strictly inside a run of digits. */
  predicate Boundary(s: string, i: nat)
    requires i <= |s|
  {
    i == 0 || i == |s| || !IsDigit(s[i - 1]) || !IsDigit(s[i])
  }

  /** What reading the character at index k adds, when it is not a digit. */
  lemma {:induction false} CharStep(s: string, k: nat)
    requires k < |s| && !IsDigit(s[k])
    ensures NumbersBefore(s, k + 1) == NumbersBefore(s, k)
    ensures PartsBefore(s, k + 1) == PartsBefore(s, k) + (if IsSymbol(s[k]) then [Part(s[k], Col(s, k), Row(s, k))] else [])
    ensures LineStart(s, k + 1) == (if s[k] == '\n' then k + 1 else LineStart(s, k))
    ensures Row(s, k + 1) == Row(s, k) + (if s[k] == '\n' then 1 else 0)
    ensures Boundary(s, k + 1)
  {
  }

  /** Past the first digit of a run, no number starts and no part is marked; the line stays. */
  lemma {:induction false} InsideRun(s: string, start: nat, k: nat)
    requires start < k <= |s| && forall m | start <= m < k :: IsDigit(s[m])
    ensures NumbersBefore(s, k) == NumbersBefore(s, start + 1)
    ensures PartsBefore(s, k) == PartsBefore(s, start + 1)
    ensures LineStart(s, k) == LineStart(s, start + 1) && Row(s, k) == Row(s, start + 1)
    decreases k
  {
    if k > start + 1 {
      InsideRun(s, start, k - 1);
    }
  }

  /** Reading a whole run adds its one number and nothing else, and leaves the reader on a boundary. */
  lemma {:induction false} RunScanned(s: string, start: nat, i: nat)
    requires RunStart(s, start) && i == RunEnd(s, start)
    ensures NumbersBefore(s, i) == NumbersBefore(s, start) + [NumberAt(s, start)]
    ensures PartsBefore(s, i) == PartsBefore(s, start)
    ensures Boundary(s, i)
    ensures LineStart(s, i) == LineStart(s, start) && Row(s, i) == Row(s, start)
    ensures NumberAt(s, start) == Number(Value(s[start..i]), Col(s, start), Col(s, start) + (i - 1 - start), Row(s, start))
  {
    InsideRun(s, start, i);
    InsideRun(s, start, i - 1 + 1);
    if start < i - 1 {
      InsideRun(s, start, i - 1);
    }
  }

  /**
   * The inner loop of parse_schematic: after the first digit of a run, keep
   * taking characters while the next one is a digit, advancing the column.
   * It stops at the end of the stream, where the source does not.
   */
  method ReadDigits(chars: Peekable, first: string, x0: int, ghost text: string, ghost at: nat)
    returns (digits: string, x: int, ghost i: nat)
    requires chars.Valid() && at < |text| && IsDigit(text[at]) && chars.Rest() == text[at + 1..]
    requires first == [text[at]]
    modifies chars
    ensures chars.Valid() && i == RunEnd(text, at) && chars.Rest() == text[i..]
    ensures digits == text[at..i] && x == x0 + (i - 1 - at)
    ensures forall k | 0 <= k < |digits| :: IsDigit(digits[k])
  {
    i := at + 1;
    x := x0;
    digits := first;
    var peeked := chars.Peek();
    while peeked != [] && IsDigit(peeked[0])
      invariant chars.Valid() && at < i <= |text| && chars.Rest() == text[i..]
      invariant peeked == Head(text[i..])
      invariant digits == text[at..i] && forall k | 0 <= k < |digits| :: IsDigit(digits[k])
      invariant x == x0 + (i - 1 - at)
      decreases |text| - i
    {
      var d;
      d, peeked := NextThenPeek(chars, text, i);
      assert text[at..i + 1] == text[at..i] + d;
      digits := digits + d;
      x := x + 1;
      i := i + 1;
    }
    forall k | at <= k < i
      ensures IsDigit(text[k])
    {
      assert text[k] == digits[k - at];
    }
    RunEndAt(text, at, i);
  }

  /** The reader's state after the first i characters: column, line, numbers and parts so far. */
  predicate Scanned(s: string, i: nat, x: int, y: int, numbers: seq<Number>, parts: seq<Part>)
  {
    i <= |s| && x == i - LineStart(s, i) && y == Row(s, i) && Boundary(s, i)
    && numbers == NumbersBefore(s, i) && parts == PartsBefore(s, i)
  }

  /** A newline resets the column and moves to the next line. */
  lemma {:induction false} ScanNewline(s: string, i: nat, x: int, y: int, numbers: seq<Number>, parts: seq<Part>)
    requires Scanned(s, i, x, y, numbers, parts) && i < |s| && s[i] == '\n'
    ensures Scanned(s, i + 1, 0, y + 1, numbers, parts)
  {
    CharStep(s, i);
  }

  /** A '.' only advances the column. */
  lemma {:induction false} ScanDot(s: string, i: nat, x: int, y: int, numbers: seq<Number>, parts: seq<Part>)
    requires Scanned(s, i, x, y, numbers, parts) && i < |s| && s[i] == '.'
    ensures Scanned(s, i + 1, x + 1, y, numbers, parts)
  {
    CharStep(s, i);
  }

  /** A symbol becomes a part at the advanced column. */
  lemma {:induction false} ScanSymbol(s: string, i: nat, x: int, y: int, numbers: seq<Number>, parts: seq<Part>)
    requires Scanned(s, i, x, y, numbers, parts) && i < |s| && IsSymbol(s[i])
    ensures Scanned(s, i + 1, x + 1, y, numbers, parts + [Part(s[i], x + 1, y)])
  {
    CharStep(s, i);
  }

  /** A whole run of digits becomes one number spanning the columns it advanced over. */
  lemma {:induction false} ScanRun(s: string, i: nat, j: nat, x: int, y: int, numbers: seq<Number>, parts: seq<Part>,
                digits: string, xEnd: int)
    requires Scanned(s, i, x, y, numbers, parts) && i < |s| && IsDigit(s[i])
    requires j == RunEnd(s, i) && digits == s[i..j] && xEnd == x + 1 + (j - 1 - i)
    requires forall k | 0 <= k < |digits| :: IsDigit(digits[k])
    ensures Scanned(s, j, xEnd, y, numbers + [Number(Value(digits), x + 1, xEnd, y)], parts)
  {
    RunScanned(s, i, j);
    var number := Number(Value(digits), x + 1, xEnd, y);
    assert number == NumberAt(s, i);
    assert NumbersBefore(s, j) == numbers + [number];
    assert xEnd == j - LineStart(s, j);
  }

  /**
   * One pass of parse_schematic's loop: take the next character and act on
   * it: a newline starts the next line, '.' is skipped, a digit starts a
   * number read to the end of its run, and anything else is a part.
   */
  method ReadToken(chars: Peekable, x: int, y: int, numbers: seq<Number>, parts: seq<Part>,
                   ghost text: string, ghost i: nat)
    returns (x': int, y': int, numbers': seq<Number>, parts': seq<Part>, ghost i': nat)
    requires chars.Valid() && i < |text| && chars.Rest() == text[i..]
    requires Scanned(text, i, x, y, numbers, parts)
    modifies chars
    ensures chars.Valid() && i < i' <= |text| && chars.Rest() == text[i'..]
    ensures Scanned(text, i', x', y', numbers', parts')
  {
    var c := chars.Next();
    assert c == [text[i]];
    x', y', numbers', parts' := x + 1, y, numbers, parts;
    if c[0] == '\n' {
      ScanNewline(text, i, x, y, numbers, parts);
      x' := 0;
      y' := y + 1;
      i' := i + 1;
    } else if c[0] == '.' {
      ScanDot(text, i, x, y, numbers, parts);
      i' := i + 1;
    } else if IsDigit(c[0]) {
      var x1 := x';
      var digits;
      digits, x', i' := ReadDigits(chars, c, x1, text, i);
      ScanRun(text, i, i', x, y, numbers, parts, digits, x');
      numbers' := numbers + [Number(Value(digits), x1, x', y)];
    } else {
      ScanSymbol(text, i, x, y, numbers, parts);
      parts' := parts + [Part(c[0], x', y)];
      i' := i + 1;
    }
  }

  /**
   * parse_schematic, with the inner loop stopping at the end of the stream:
   * the numbers are those of the maximal digit runs and the parts those of the
   * symbol characters, each at its column and line, in reading order.
   */
  method ParseSchematic(text: string) returns (numbers: seq<Number>, parts: seq<Part>)
    ensures numbers == NumbersBefore(text, |text|)
    ensures parts == PartsBefore(text, |text|)
  {
    var x, y := 0, 0;
    numbers, parts := [], [];
    var chars := new Peekable(text);
    ghost var i: nat := 0;
    var more := chars.NonEmpty();
    while more
      invariant chars.Valid() && i <= |text| && chars.Rest() == text[i..]
      invariant more <==> i < |text|
      invariant Scanned(text, i, x, y, numbers, parts)
      decreases |text| - i
    {
      x, y, numbers, parts, i := ReadToken(chars, x, y, numbers, parts, text, i);
      more := chars.NonEmpty();
    }
    assert text[i..] == [];
  }

  /** Every parsed number spans at least its first column, and every part is a symbol. */
  lemma {:induction false} ParsedShape(s: string, n: nat)
    requires n <= |s|
    ensures forall m | m in NumbersBefore(s, n) :: m.x1 <= m.x2
    ensures forall p | p in PartsBefore(s, n) :: IsSymbol(p.symbol)
  {
    if n > 0 {
      ParsedShape(s, n - 1);
      if RunStart(s, n - 1) {
        var j := RunEnd(s, n - 1);
        assert Col(s, n - 1) <= Col(s, j - 1) by {
          InsideRun(s, n - 1, j);
        }
      }
    }
  }

  // ---------------------------------------------------------------------------
  // The digit loop as written: `'' in string.digits` holds in Python
  // ---------------------------------------------------------------------------

  /** Python's `c in t` on strings: c occurs in t as a contiguous piece (the empty string always does). */
  predicate InText(c: string, t: string)
    decreases |t|
  {
    c <= t || (t != [] && InText(c, t[1..]))
  }

  const DigitChars: string := "0123456789"

  /** The state of parse_schematic's inner loop: what is left to read, the digits so far, the column. */
  datatype DigitLoop = DigitLoop(rest: string, digits: string, x: int)

  /** One pass of the inner loop as written: take the next character ("" at the end) and advance. */
  function DigitStepAsWritten(state: DigitLoop): (next: DigitLoop)
    ensures next.x == state.x + 1
  {
    var c := Head(state.rest);
    DigitLoop(state.rest[|c|..], state.digits + c, state.x + 1)
  }

  /**
   * The inner loop as written, run for at most fuel passes: Some(final state)
   * if its test `peek() in string.digits` fails within them, None otherwise.
   */
  function RunAsWritten(state: DigitLoop, fuel: nat): Option<DigitLoop>
    decreases fuel
  {
    if !InText(Head(state.rest), DigitChars) then Some(state)
    else if fuel == 0 then None
    else RunAsWritten(DigitStepAsWritten(state), fuel - 1)
  }

  /** At the end of the stream, peek returns "", which is in every string. */
  lemma {:induction false} EmptyInText(t: string)
    ensures InText([], t)
  {
  }

  /**
   * Once the stream is exhausted, the inner loop as written never stops: for
   * any number of passes it is still running.  A text ending in a digit, such
   * as "1", reaches this state after its last digit.
   */
  lemma {:induction false} AsWrittenNeverStops(state: DigitLoop, fuel: nat)
    requires state.rest == []
    ensures RunAsWritten(state, fuel) == None
    decreases fuel
  {
    EmptyInText(DigitChars);
    if fuel > 0 {
      AsWrittenNeverStops(DigitStepAsWritten(state), fuel - 1);
    }
  }

  /** On an actual character the test as written agrees with the corrected one. */
  lemma {:induction false} AsWrittenOnCharacter(c: char)
    ensures InText([c], DigitChars) <==> IsDigit(c)
  {
    if IsDigit(c) {
      var k := c as int - '0' as int;
      InTextAt([c], DigitChars, k);
    } else {
      NotInTextSingle(c, DigitChars);
    }
  }

  /** A piece that starts at index k of t occurs in t. */
  lemma {:induction false} InTextAt(c: string, t: string, k: nat)
    requires k <= |t| && c <= t[k..]
    ensures InText(c, t)
    decreases k
  {
    if k > 0 {
      assert t[1..][k - 1..] == t[k..];
      InTextAt(c, t[1..], k - 1);
    }
  }

  /** A single character occurs in t only if it is one of t's characters. */
  lemma {:induction false} NotInTextSingle(c: char, t: string)
    requires forall k | 0 <= k < |t| :: t[k] != c
    ensures !InText([c], t)
    decreases |t|
  {
    if t != [] {
      assert t[0] != c;
      forall k | 0 <= k < |t[1..]|
        ensures t[1..][k] != c
      {
        assert t[1..][k] == t[k + 1];
      }
      NotInTextSingle(c, t[1..]);
    }
  }

  // ---------------------------------------------------------------------------
  // Part one: the sum of part numbers
  // ---------------------------------------------------------------------------

  /** The number is adjacent to some part. */
  predicate IsPartNumber(n: Number, parts: seq<Part>)
  {
    exists p | p in parts :: IsAdjacent(n, p)
  }

  /** sum(p.number for p in part_numbers), the numbers adjacent to any part. */
  function PartNumberSum(numbers: seq<Number>, parts: seq<Part>): nat
  {
    if numbers == [] then 0
    else
      var last := numbers[|numbers| - 1];
      PartNumberSum(numbers[..|numbers| - 1], parts) + (if IsPartNumber(last, parts) then last.number else 0)
  }

  /** The sum of the numbers adjacent to no part. */
  function LooseNumberSum(numbers: seq<Number>, parts: seq<Part>): nat
  {
    if numbers == [] then 0
    else
      var last := numbers[|numbers| - 1];
      LooseNumberSum(numbers[..|numbers| - 1], parts) + (if IsPartNumber(last, parts) then 0 else last.number)
  }

  function NumberSum(numbers: seq<Number>): nat
  {
    if numbers == [] then 0 else NumberSum(numbers[..|numbers| - 1]) + numbers[|numbers| - 1].number
  }

  /**
   * Every number is counted by part one or left loose, never both: the two
   * sums add up to the sum of all numbers, and part one takes them all
   * exactly when each number touches a part.
   */
  lemma {:induction false} PartNumberSumSplit(numbers: seq<Number>, parts: seq<Part>)
    ensures PartNumberSum(numbers, parts) + LooseNumberSum(numbers, parts) == NumberSum(numbers)
    ensures (forall n | n in numbers :: IsPartNumber(n, parts)) ==> PartNumberSum(numbers, parts) == NumberSum(numbers)
    ensures parts == [] ==> PartNumberSum(numbers, parts) == 0
  {
    if numbers != [] {
      var init := numbers[..|numbers| - 1];
      PartNumberSumSplit(init, parts);
      if forall n | n in numbers :: IsPartNumber(n, parts) {
        assert forall n | n in init :: n in numbers;
        assert numbers[|numbers| - 1] in numbers;
      }
    }
  }

  // ---------------------------------------------------------------------------
  // Part two: gear ratios
  // ---------------------------------------------------------------------------

  /** [number for number in numbers if number.is_adjacent(part)] */
  function AdjacentNumbers(numbers: seq<Number>, part: Part): (adjacent: seq<Number>)
    ensures |adjacent| <= |numbers|
    ensures forall n :: n in adjacent <==> n in numbers && IsAdjacent(n, part)
  {
    if numbers == [] then []
    else
      var last := numbers[|numbers| - 1];
      AdjacentNumbers(numbers[..|numbers| - 1], part) + (if IsAdjacent(last, part) then [last] else [])
  }

  /** A gear: a '*' part adjacent to exactly two numbers. */
  predicate IsGear(numbers: seq<Number>, part: Part)
  {
    part.symbol == '*' && |AdjacentNumbers(numbers, part)| == 2
  }

  /** The gear's ratio: the product of its two numbers. */
  function Ratio(numbers: seq<Number>, part: Part): nat
    requires IsGear(numbers, part)
  {
    var adjacent := AdjacentNumbers(numbers, part);
    adjacent[0].number * adjacent[1].number
  }

  /** The sum of the ratios of the gears among the first k parts. */
  function GearRatioSum(numbers: seq<Number>, parts: seq<Part>): nat
  {
    if parts == [] then 0
    else
      var last := parts[|parts| - 1];
      GearRatioSum(numbers, parts[..|parts| - 1]) + (if IsGear(numbers, last) then Ratio(numbers, last) else 0)
  }

  /** The '*' parts, in order. */
  function Stars(parts: seq<Part>): (stars: seq<Part>)
    ensures forall p :: p in stars <==> p in parts && p.symbol == '*'
  {
    if parts == [] then []
    else Stars(parts[..|parts| - 1]) + (if parts[|parts| - 1].symbol == '*' then [parts[|parts| - 1]] else [])
  }

  /**
   * Only '*' parts contribute: the gear ratio sum over all parts equals the
   * one over the stars alone, and is 0 when no star has exactly two numbers.
   */
  lemma {:induction false} GearRatioSumStars(numbers: seq<Number>, parts: seq<Part>)
    ensures GearRatioSum(numbers, parts) == GearRatioSum(numbers, Stars(parts))
    ensures (forall p | p in parts :: !IsGear(numbers, p)) ==> GearRatioSum(numbers, parts) == 0
  {
    if parts != [] {
      var init, last := parts[..|parts| - 1], parts[|parts| - 1];
      GearRatioSumStars(numbers, init);
      var stars := Stars(parts);
      if last.symbol == '*' {
        assert stars == Stars(init) + [last];
        assert stars[..|stars| - 1] == Stars(init);
        assert GearRatioSum(numbers, stars) == GearRatioSum(numbers, Stars(init)) + (if IsGear(numbers, last) then Ratio(numbers, last) else 0);
      } else {
        assert stars == Stars(init);
      }
      if forall p | p in parts :: !IsGear(numbers, p) {
        assert forall p | p in init :: p in parts;
        assert last in parts;
      }
    }
  }

  /**
   * part_two: go through the parts, skip those that are not '*' or do not
   * have exactly two adjacent numbers, and add up the products of the rest.
   */
  method PartTwo(numbers: seq<Number>, parts: seq<Part>) returns (result: nat)
    ensures result == GearRatioSum(numbers, parts)
  {
    result := 0;
    for k := 0 to |parts|
      invariant result == GearRatioSum(numbers, parts[..k])
    {
      var part := parts[k];
      assert parts[..k + 1][..k] == parts[..k];
      if part.symbol != '*' {
        continue;
      }
      var partNumbers := AdjacentNumbers(numbers, part);
      if |partNumbers| != 2 {
        continue;
      }
      result := result + partNumbers[0].number * partNumbers[1].number;
    }
    assert parts[..|parts|] == parts;
  }
}
