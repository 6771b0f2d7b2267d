/**
 * Trebuchet calibration, second part (01/01b.py): a digit may also be spelled
 * out as a word.  The calibration value of a line is ten times the digit whose
 * spelling occurs earliest plus the digit whose spelling occurs latest, found
 * as the least and greatest (position, digit, text) triple over the table of
 * spellings; a line with no spelling at all has no value (`min` of nothing).
 */
module TrebuchetWords {

  import opened Failures

  /** digit_strings in the dictionary's order: the numerals 1 to 9, then the names. */
  const Spellings: seq<(string, nat)> := [
    ("1", 1), ("2", 2), ("3", 3), ("4", 4), ("5", 5), ("6", 6), ("7", 7), ("8", 8), ("9", 9),
    ("one", 1), ("two", 2), ("three", 3), ("four", 4), ("five", 5),
    ("six", 6), ("seven", 7), ("eight", 8), ("nine", 9)
  ]

  /** `text` occurs in `line` starting at position p. */
  predicate OccursAt(line: string, p: int, text: string)
  {
    0 <= p && p + |text| <= |line| && line[p..p + |text|] == text
  }

  // ---------------------------------------------------------------------------
  // str.find and str.rfind
  // ---------------------------------------------------------------------------

  function FindFrom(line: string, text: string, p: nat): int
    decreases |line| - p
  {
    if p + |text| > |line| then -1
    else if OccursAt(line, p, text) then p
    else FindFrom(line, text, p + 1)
  }

  /** str.find: the lowest position where text occurs, or -1. */
  function Find(line: string, text: string): int
  {
    FindFrom(line, text, 0)
  }

  function RFindFrom(line: string, text: string, p: int): int
    decreases p + 1
  {
    if p < 0 then -1
    else if OccursAt(line, p, text) then p
    else RFindFrom(line, text, p - 1)
  }

  /** str.rfind: the highest position where text occurs, or -1. */
  function RFind(line: string, text: string): int
  {
    RFindFrom(line, text, |line| - |text|)
  }

  lemma {:induction false} FindFromSpec(line: string, text: string, p: nat)
    requires forall q | 0 <= q < p :: !OccursAt(line, q, text)
    ensures var pos := FindFrom(line, text, p);
      && (pos == -1 <==> forall q :: !OccursAt(line, q, text))
      && (pos != -1 ==> OccursAt(line, pos, text) && forall q | 0 <= q < pos :: !OccursAt(line, q, text))
    decreases |line| - p
  {
    if p + |text| > |line| {
    } else if !OccursAt(line, p, text) {
      FindFromSpec(line, text, p + 1);
    }
  }

  /** find reports no position exactly when the text does not occur, else its first occurrence. */
  lemma {:induction false} FindSpec(line: string, text: string)
    ensures var pos := Find(line, text);
      && (pos == -1 <==> forall q :: !OccursAt(line, q, text))
      && (pos != -1 ==> OccursAt(line, pos, text) && forall q | 0 <= q < pos :: !OccursAt(line, q, text))
  {
    FindFromSpec(line, text, 0);
  }

  lemma {:induction false} RFindFromSpec(line: string, text: string, p: int)
    requires forall q | q > p :: !OccursAt(line, q, text)
    ensures var pos := RFindFrom(line, text, p);
      && (pos == -1 <==> forall q :: !OccursAt(line, q, text))
      && (pos != -1 ==> OccursAt(line, pos, text) && forall q | q > pos :: !OccursAt(line, q, text))
    decreases p + 1
  {
    if p >= 0 && !OccursAt(line, p, text) {
      RFindFromSpec(line, text, p - 1);
    }
  }

  /** rfind reports no position exactly when the text does not occur, else its last occurrence. */
  lemma {:induction false} RFindSpec(line: string, text: string)
    ensures var pos := RFind(line, text);
      && (pos == -1 <==> forall q :: !OccursAt(line, q, text))
      && (pos != -1 ==> OccursAt(line, pos, text) && forall q | q > pos :: !OccursAt(line, q, text))
  {
    RFindFromSpec(line, text, |line| - |text|);
  }

  // ---------------------------------------------------------------------------
  // The least and greatest triple
  // ---------------------------------------------------------------------------

  /** A table of spellings: each text with the digit it spells. */
  type Table = seq<(string, nat)>

  type Candidate = (int, nat, string)

  /** Python's ordering of strings: lexicographic by character. */
  predicate TextLess(a: string, b: string)
  {
    if a == [] then b != []
    else if b == [] then false
    else a[0] < b[0] || (a[0] == b[0] && TextLess(a[1..], b[1..]))
  }

  /** Python's ordering of (position, digit, text) tuples. */
  predicate Less(a: Candidate, b: Candidate)
  {
    a.0 < b.0 || (a.0 == b.0 && (a.1 < b.1 || (a.1 == b.1 && TextLess(a.2, b.2))))
  }

  /**
   * The generator of line_number over the table from index k on: one triple
   * per spelling that occurs, positioned by find (for the first digit) or
   * rfind (for the last).
   */
  function Candidates(line: string, table: Table, k: nat, last: bool): seq<Candidate>
    decreases |table| - k
  {
    if k >= |table| then []
    else
      var (text, digit) := table[k];
      var pos := if last then RFind(line, text) else Find(line, text);
      (if pos != -1 then [(pos, digit, text)] else []) + Candidates(line, table, k + 1, last)
  }

  /** min: keep the running minimum, replacing it by any strictly smaller item. */
  function Least(cs: seq<Candidate>): (m: Candidate)
    requires cs != []
    ensures m in cs && forall c | c in cs :: c.0 >= m.0
  {
    if |cs| == 1 then cs[0]
    else
      var m := Least(cs[..|cs| - 1]);
      assert forall c | c in cs :: c in cs[..|cs| - 1] || c == cs[|cs| - 1];
      if Less(cs[|cs| - 1], m) then cs[|cs| - 1] else m
  }

  /** max: keep the running maximum, replacing it by any strictly greater item. */
  function Greatest(cs: seq<Candidate>): (m: Candidate)
    requires cs != []
    ensures m in cs && forall c | c in cs :: c.0 <= m.0
  {
    if |cs| == 1 then cs[0]
    else
      var m := Greatest(cs[..|cs| - 1]);
      assert forall c | c in cs :: c in cs[..|cs| - 1] || c == cs[|cs| - 1];
      if Less(m, cs[|cs| - 1]) then cs[|cs| - 1] else m
  }

  /** line_number over a table of spellings. */
  function LineNumberIn(line: string, table: Table): Outcome<nat>
  {
    var firsts := Candidates(line, table, 0, false);
    var lasts := Candidates(line, table, 0, true);
    if firsts == [] || lasts == [] then Failure(ValueError)
    else Success(Least(firsts).1 * 10 + Greatest(lasts).1)
  }

  /** line_number with the digit_strings table. */
  function LineNumber(line: string): Outcome<nat>
  {
    LineNumberIn(line, Spellings)
  }

  // ---------------------------------------------------------------------------
  // Reference: scan the line for spellings
  // ---------------------------------------------------------------------------

  /** The digit spelled at position p by the first entry of the table, from index k on, occurring there. */
  function SpelledFrom(line: string, p: int, table: Table, k: nat): Option<nat>
    decreases |table| - k
  {
    if k >= |table| then None
    else if OccursAt(line, p, table[k].0) then Some(table[k].1)
    else SpelledFrom(line, p, table, k + 1)
  }

  /** The digit spelled starting at position p, if any. */
  function SpelledAt(line: string, p: int, table: Table): Option<nat>
  {
    SpelledFrom(line, p, table, 0)
  }

  /** The first digit spelled at position p or later. */
  function FirstSpelled(line: string, p: nat, table: Table): Option<nat>
    decreases |line| - p
  {
    if p >= |line| then None
    else if SpelledAt(line, p, table).Some? then SpelledAt(line, p, table)
    else FirstSpelled(line, p + 1, table)
  }

  /** The last digit spelled at position p or earlier. */
  function LastSpelled(line: string, p: int, table: Table): Option<nat>
    decreases p + 1
  {
    if p < 0 then None
    else if SpelledAt(line, p, table).Some? then SpelledAt(line, p, table)
    else LastSpelled(line, p - 1, table)
  }

  /** The calibration value read off by scanning from each end of the line. */
  function ScanValue(line: string, table: Table): Outcome<nat>
  {
    var first, last := FirstSpelled(line, 0, table), LastSpelled(line, |line| - 1, table);
    if first.Some? && last.Some? then Success(10 * first.value + last.value) else Failure(ValueError)
  }

  // ---------------------------------------------------------------------------
  // The digit_strings table is unambiguous
  // ---------------------------------------------------------------------------

  /** No two entries of the table can start at the same position of any line. */
  ghost predicate Unambiguous(table: Table)
  {
    forall line, p, i, j |
      0 <= i < |table| && 0 <= j < |table| && OccursAt(line, p, table[i].0) && OccursAt(line, p, table[j].0) ::
      i == j
  }

  /** Every entry has a non-empty text and spells a digit from 1 to 9. */
  predicate Sensible(table: Table)
  {
    forall i | 0 <= i < |table| :: |table[i].0| > 0 && 1 <= table[i].1 <= 9
  }

  /** Two spellings differ in their first or their second character. */
  predicate Distinguished(a: string, b: string)
  {
    |a| > 0 && |b| > 0 && (a[0] != b[0] || (|a| > 1 && |b| > 1 && a[1] != b[1]))
  }

  lemma {:induction false} DistinguishedRow(i: nat)
    requires i < |Spellings|
    ensures forall j | i < j < |Spellings| :: Distinguished(Spellings[i].0, Spellings[j].0)
  {
  }

  /** An occurrence fixes the first two characters of the text. */
  lemma {:induction false} OccursHead(line: string, p: int, t: string)
    ensures OccursAt(line, p, t) && |t| > 0 ==> t[0] == line[p]
    ensures OccursAt(line, p, t) && |t| > 1 ==> t[1] == line[p + 1]
  {
    if OccursAt(line, p, t) && |t| > 0 {
      assert t[0] == line[p..p + |t|][0];
      if |t| > 1 {
        assert t[1] == line[p..p + |t|][1];
      }
    }
  }

  /** At most one spelling starts at any position of a line. */
  lemma {:induction false} OneSpellingAt(line: string, p: int, i: nat, j: nat)
    requires i < |Spellings| && j < |Spellings|
    requires OccursAt(line, p, Spellings[i].0) && OccursAt(line, p, Spellings[j].0)
    ensures i == j
  {
    DistinguishedRow(i);
    DistinguishedRow(j);
    OccursHead(line, p, Spellings[i].0);
    OccursHead(line, p, Spellings[j].0);
  }

  /** digit_strings is unambiguous and spells only the digits 1 to 9. */
  lemma {:induction false} SpellingsUnambiguous()
    ensures Unambiguous(Spellings) && Sensible(Spellings)
  {
    forall line, p, i, j |
      0 <= i < |Spellings| && 0 <= j < |Spellings| && OccursAt(line, p, Spellings[i].0) && OccursAt(line, p, Spellings[j].0)
      ensures i == j
    {
      OneSpellingAt(line, p, i, j);
    }
  }

  // ---------------------------------------------------------------------------
  // Proofs over any unambiguous table
  // ---------------------------------------------------------------------------

  lemma {:induction false} SpelledFromFinds(line: string, p: int, table: Table, k: nat, i: nat)
    requires Unambiguous(table)
    requires k <= i < |table| && OccursAt(line, p, table[i].0)
    ensures SpelledFrom(line, p, table, k) == Some(table[i].1)
    decreases |table| - k
  {
    if !OccursAt(line, p, table[k].0) {
      SpelledFromFinds(line, p, table, k + 1, i);
    }
  }

  lemma {:induction false} SpelledFromNone(line: string, p: int, table: Table, k: nat)
    requires forall i | k <= i < |table| :: !OccursAt(line, p, table[i].0)
    ensures SpelledFrom(line, p, table, k) == None
    decreases |table| - k
  {
    if k < |table| {
      SpelledFromNone(line, p, table, k + 1);
    }
  }

  /** The digit spelled at p is that of the entry occurring there; none if no entry does. */
  lemma {:induction false} SpelledAtSpec(line: string, p: int, table: Table)
    requires Unambiguous(table)
    ensures forall i | 0 <= i < |table| && OccursAt(line, p, table[i].0) ::
      SpelledAt(line, p, table) == Some(table[i].1)
    ensures (forall i | 0 <= i < |table| :: !OccursAt(line, p, table[i].0)) <==>
      SpelledAt(line, p, table) == None
  {
    forall i | 0 <= i < |table| && OccursAt(line, p, table[i].0)
      ensures SpelledAt(line, p, table) == Some(table[i].1)
    {
      SpelledFromFinds(line, p, table, 0, i);
    }
    if forall i | 0 <= i < |table| :: !OccursAt(line, p, table[i].0) {
      SpelledFromNone(line, p, table, 0);
    }
  }

  lemma {:induction false} CandidatesSpec(line: string, table: Table, k: nat, last: bool)
    requires Unambiguous(table)
    ensures forall c | c in Candidates(line, table, k, last) :: SpelledAt(line, c.0, table) == Some(c.1)
    ensures forall i | k <= i < |table| ::
      var pos := if last then RFind(line, table[i].0) else Find(line, table[i].0);
      pos != -1 ==> (pos, table[i].1, table[i].0) in Candidates(line, table, k, last)
    decreases |table| - k
  {
    if k < |table| {
      CandidatesSpec(line, table, k + 1, last);
      var text := table[k].0;
      var pos := if last then RFind(line, text) else Find(line, text);
      if pos != -1 {
        if last { RFindSpec(line, text); } else { FindSpec(line, text); }
        SpelledAtSpec(line, pos, table);
      }
    }
  }

  lemma {:induction false} FirstSpelledAt(line: string, p: nat, q: nat, table: Table)
    requires p <= q < |line| && SpelledAt(line, q, table).Some?
    requires forall r | p <= r < q :: SpelledAt(line, r, table) == None
    ensures FirstSpelled(line, p, table) == SpelledAt(line, q, table)
    decreases q - p
  {
    if p < q {
      FirstSpelledAt(line, p + 1, q, table);
    }
  }

  lemma {:induction false} FirstSpelledNone(line: string, p: nat, table: Table)
    requires forall r | p <= r < |line| :: SpelledAt(line, r, table) == None
    ensures FirstSpelled(line, p, table) == None
    decreases |line| - p
  {
    if p < |line| {
      FirstSpelledNone(line, p + 1, table);
    }
  }

  lemma {:induction false} LastSpelledAt(line: string, p: int, q: nat, table: Table)
    requires q <= p && SpelledAt(line, q, table).Some?
    requires forall r | q < r <= p :: SpelledAt(line, r, table) == None
    ensures LastSpelled(line, p, table) == SpelledAt(line, q, table)
    decreases p - q
  {
    if q < p {
      LastSpelledAt(line, p - 1, q, table);
    }
  }

  lemma {:induction false} LastSpelledNone(line: string, p: int, table: Table)
    requires forall r | 0 <= r <= p :: SpelledAt(line, r, table) == None
    ensures LastSpelled(line, p, table) == None
    decreases p + 1
  {
    if p >= 0 {
      LastSpelledNone(line, p - 1, table);
    }
  }

  /** find and rfind fail for every entry exactly when no position spells a digit. */
  lemma {:induction false} NoSpellingAnywhere(line: string, table: Table)
    requires Unambiguous(table) && Sensible(table)
    ensures (forall i | 0 <= i < |table| :: Find(line, table[i].0) == -1)
        <==> (forall r | 0 <= r < |line| :: SpelledAt(line, r, table) == None)
    ensures (forall i | 0 <= i < |table| :: Find(line, table[i].0) == -1)
        <==> (forall i | 0 <= i < |table| :: RFind(line, table[i].0) == -1)
  {
    forall i | 0 <= i < |table|
      ensures Find(line, table[i].0) == -1 <==> RFind(line, table[i].0) == -1
    {
      FindSpec(line, table[i].0);
      RFindSpec(line, table[i].0);
    }
    if forall i | 0 <= i < |table| :: Find(line, table[i].0) == -1 {
      forall r | 0 <= r < |line|
        ensures SpelledAt(line, r, table) == None
      {
        forall i | 0 <= i < |table|
          ensures !OccursAt(line, r, table[i].0)
        {
          FindSpec(line, table[i].0);
        }
        SpelledAtSpec(line, r, table);
      }
    }
    if forall r | 0 <= r < |line| :: SpelledAt(line, r, table) == None {
      forall i | 0 <= i < |table|
        ensures Find(line, table[i].0) == -1
      {
        var pos := Find(line, table[i].0);
        FindSpec(line, table[i].0);
        SpelledAtSpec(line, pos, table);
      }
    }
  }

  /** The least triple carries the first spelled digit; there is none when nothing is spelled. */
  lemma {:induction false} FirstDigitScan(line: string, table: Table)
    requires Unambiguous(table) && Sensible(table)
    ensures var firsts := Candidates(line, table, 0, false);
      && (firsts == [] <==> FirstSpelled(line, 0, table) == None)
      && (firsts != [] ==> FirstSpelled(line, 0, table) == Some(Least(firsts).1))
  {
    var firsts := Candidates(line, table, 0, false);
    CandidatesSpec(line, table, 0, false);
    NoSpellingAnywhere(line, table);
    if firsts == [] {
      FirstSpelledNone(line, 0, table);
    } else {
      var m := Least(firsts);
      assert SpelledAt(line, m.0, table) == Some(m.1);
      SpelledAtSpec(line, m.0, table);
      forall r | 0 <= r < m.0
        ensures SpelledAt(line, r, table) == None
      {
        forall i | 0 <= i < |table|
          ensures !OccursAt(line, r, table[i].0)
        {
          FindSpec(line, table[i].0);
        }
        SpelledAtSpec(line, r, table);
      }
      FirstSpelledAt(line, 0, m.0, table);
    }
  }

  /** The greatest triple carries the last spelled digit; there is none when nothing is spelled. */
  lemma {:induction false} LastDigitScan(line: string, table: Table)
    requires Unambiguous(table) && Sensible(table)
    ensures var lasts := Candidates(line, table, 0, true);
      && (lasts == [] <==> LastSpelled(line, |line| - 1, table) == None)
      && (lasts != [] ==> LastSpelled(line, |line| - 1, table) == Some(Greatest(lasts).1))
  {
    var lasts := Candidates(line, table, 0, true);
    CandidatesSpec(line, table, 0, true);
    NoSpellingAnywhere(line, table);
    if lasts == [] {
      LastSpelledNone(line, |line| - 1, table);
    } else {
      var m := Greatest(lasts);
      assert SpelledAt(line, m.0, table) == Some(m.1);
      SpelledAtSpec(line, m.0, table);
      forall r | m.0 < r <= |line| - 1
        ensures SpelledAt(line, r, table) == None
      {
        forall i | 0 <= i < |table|
          ensures !OccursAt(line, r, table[i].0)
        {
          RFindSpec(line, table[i].0);
        }
        SpelledAtSpec(line, r, table);
      }
      LastSpelledAt(line, |line| - 1, m.0, table);
    }
  }

  /** Every triple found carries a digit from 1 to 9. */
  lemma {:induction false} CandidateDigit(line: string, table: Table, c: Candidate, last: bool)
    requires Unambiguous(table) && Sensible(table) && c in Candidates(line, table, 0, last)
    ensures 1 <= c.1 <= 9
  {
    CandidatesSpec(line, table, 0, last);
    SpelledDigit(line, c.0, table);
  }

  /** Once the least and greatest triples are known to carry the digits the scan finds, the two readings agree. */
  lemma {:induction false} AgreeOnEnds(line: string, table: Table, first: Option<Candidate>, last: Option<Candidate>)
    requires first == (if Candidates(line, table, 0, false) == [] then None else Some(Least(Candidates(line, table, 0, false))))
    requires last == (if Candidates(line, table, 0, true) == [] then None else Some(Greatest(Candidates(line, table, 0, true))))
    requires FirstSpelled(line, 0, table) == if first.Some? then Some(first.value.1) else None
    requires LastSpelled(line, |line| - 1, table) == if last.Some? then Some(last.value.1) else None
    ensures LineNumberIn(line, table) == ScanValue(line, table)
  {
  }

  /** Over any unambiguous table, the least and greatest triples agree with the scan. */
  lemma {:induction false} LineNumberInMatchesScan(line: string, table: Table)
    requires Unambiguous(table) && Sensible(table)
    ensures LineNumberIn(line, table) == ScanValue(line, table)
    ensures LineNumberIn(line, table).Success? ==> 11 <= LineNumberIn(line, table).value <= 99
  {
    FirstDigitScan(line, table);
    LastDigitScan(line, table);
    var firsts := Candidates(line, table, 0, false);
    var lasts := Candidates(line, table, 0, true);
    var first := if firsts == [] then None else Some(Least(firsts));
    var last := if lasts == [] then None else Some(Greatest(lasts));
    AgreeOnEnds(line, table, first, last);
    if first.Some? && last.Some? {
      CandidateDigit(line, table, first.value, false);
      CandidateDigit(line, table, last.value, true);
    }
  }

  /**
   * line_number agrees with scanning the line from both ends: ten times the
   * first spelled digit plus the last; a ValueError when no digit is spelled;
   * any value lies between 11 and 99.
   */
  lemma {:induction false} LineNumberMatchesScan(line: string)
    ensures LineNumber(line) == ScanValue(line, Spellings)
    ensures LineNumber(line).Failure? ==> LineNumber(line).error == ValueError
    ensures LineNumber(line).Success? ==> 11 <= LineNumber(line).value <= 99
  {
    SpellingsUnambiguous();
    LineNumberInMatchesScan(line, Spellings);
  }

  lemma {:induction false} SpelledFromDigit(line: string, p: int, table: Table, k: nat)
    requires Sensible(table)
    ensures SpelledFrom(line, p, table, k).Some? ==> 1 <= SpelledFrom(line, p, table, k).value <= 9
    decreases |table| - k
  {
    if k < |table| && !OccursAt(line, p, table[k].0) {
      SpelledFromDigit(line, p, table, k + 1);
    }
  }

  lemma {:induction false} SpelledDigit(line: string, p: int, table: Table)
    requires Sensible(table)
    ensures SpelledAt(line, p, table).Some? ==> 1 <= SpelledAt(line, p, table).value <= 9
  {
    SpelledFromDigit(line, p, table, 0);
  }

  lemma {:induction false} NothingSpelledAt(line: string, r: int)
    requires line == "twone" && 3 <= r <= 4
    ensures SpelledAt(line, r, Spellings) == None
  {
    SpellingsUnambiguous();
    forall i | 0 <= i < |Spellings|
      ensures !OccursAt(line, r, Spellings[i].0)
    {
      OccursHead(line, r, Spellings[i].0);
    }
    SpelledAtSpec(line, r, Spellings);
  }

  lemma {:induction false} FirstOfOverlap(line: string)
    requires line == "twone"
    ensures FirstSpelled(line, 0, Spellings) == Some(2)
  {
    SpellingsUnambiguous();
    assert OccursAt(line, 0, Spellings[10].0);
    SpelledAtSpec(line, 0, Spellings);
    FirstSpelledAt(line, 0, 0, Spellings);
  }

  lemma {:induction false} OneSpelledAt(line: string)
    requires line == "twone"
    ensures SpelledAt(line, 2, Spellings) == Some(1)
  {
    SpellingsUnambiguous();
    assert OccursAt(line, 2, Spellings[9].0);
    SpelledAtSpec(line, 2, Spellings);
  }

  lemma {:induction false} LastOfOverlap(line: string)
    requires line == "twone"
    ensures LastSpelled(line, 4, Spellings) == Some(1)
  {
    OneSpelledAt(line);
    NothingSpelledAt(line, 3);
    NothingSpelledAt(line, 4);
    LastSpelledAt(line, 4, 2, Spellings);
  }

  /** The calibration value from the digits found by scanning from each end. */
  lemma {:induction false} ValueOfEnds(line: string, table: Table, a: nat, b: nat)
    requires Unambiguous(table) && Sensible(table)
    requires FirstSpelled(line, 0, table) == Some(a) && LastSpelled(line, |line| - 1, table) == Some(b)
    ensures LineNumberIn(line, table) == Success(10 * a + b)
  {
    LineNumberInMatchesScan(line, table);
  }

  /** In "twone" the spellings overlap: the first digit is two and the last is one. */
  lemma {:induction false} OverlappingSpellings(line: string)
    requires line == "twone"
    ensures LineNumber(line) == Success(21)
  {
    FirstOfOverlap(line);
    LastOfOverlap(line);
    SpellingsUnambiguous();
    ValueOfEnds(line, Spellings, 2, 1);
  }
}
