# Advent of Code 2023, days 1–14 (day 6 excepted), modelled in Dafny

This project models the puzzle solutions of an Advent of Code 2023 repository, one Dafny module
for each solution file, and proves what each computes:

- **Trebuchet** / **TrebuchetWords** (day 1): the calibration value of a line, from digit characters
  only and then from digits and spelled-out digit names found with `str.find`/`str.rfind`.
- **Cubes** (day 2): parsing games with a regular-expression consumer, possible games and the power
  of the fewest cubes.
- **Schematic** (day 3): the character-by-character schematic parser with its look-ahead stream,
  part numbers and gear ratios.
- **Scratchcards** (day 4): points of a card and the copy-tracking total of part two.
- **Ranges**, **Almanac**, **AlmanacReverse**, **AlmanacRanges** (day 5): the seed-to-location map
  chain, the reverse search and the range-splitting solution.
- **CamelCards**, **CamelJokers**, **CamelJokersBest** (day 7): hand types, ordering and winnings,
  with and without jokers.
- **Wasteland** (day 8): walking the network by the instructions, one ghost and many (least common
  multiple of the cycle lengths).
- **Mirage** (day 9): extrapolation by repeated differences, forwards and backwards.
- **Pipes** (day 10): the start tile's shape, walking the loop and counting enclosed tiles.
- **Cosmos** (day 11): expanding the empty rows and columns and summing galaxy distances.
- **Springs** / **SpringsMemo** (day 12): counting arrangements of damaged springs, with and without
  the memo table.
- **Mirrors** (day 13): reflection lines, exact and with one smudge.
- **Dish** (day 14): tilting the platform (each column rebuilt into a fresh array), spin cycles with repeat detection, and the load.

Shared modules: **Failures** (the Python exceptions as values, `Outcome`, `Option`, and `Run` for a
loop that may not finish within a bound) and **Arith** (modular arithmetic, powers of two, gcd and
lcm).

Exceptions the source raises on bad input (an `IndexError` on a line without digits, a `KeyError`
on a missing node, `StopIteration` from `next` on an empty iterator, …) are modelled as
`Failure(...)` results, so the models accept every input the source accepts, except where
"## Left out" says otherwise. Loops written
`while True` in the source, whose ending depends on the input, take a `fuel` bound and return
`Unfinished` when it runs out. Reading standard input, the regular-expression line parsers that
only split input text into fields, and printing are outside the model: each operation takes the
parsed values as parameters.

## Model

| member | source | states |
|---|---|---|
| Trebuchet.DigitValue | 01/01a.py:6 | the value of a digit character is at most 9 |
| Trebuchet.Digits | 01/01a.py:5 | every character kept by the digit filter is a digit |
| Trebuchet.DigitsEmpty | 01/01a.py:5 | the filtered digit list is empty exactly when no character of the line is a digit |
| Trebuchet.DigitsFirst | 01/01a.py:5-6 | `digits[0]` is the line's first digit character |
| Trebuchet.DigitsLast | 01/01a.py:5-6 | `digits[-1]` is the line's last digit character |
| Trebuchet.LineNumberSpec | 01/01a.py:4-6 | `line_number` fails with IndexError exactly when the line has no digit; otherwise it is ten times the first digit plus the last, at most 99 |
| TrebuchetWords.FindSpec | 01/01b.py:20 | `str.find` returns -1 exactly when the text does not occur, else the position of its first occurrence |
| TrebuchetWords.RFindSpec | 01/01b.py:25 | `str.rfind` returns -1 exactly when the text does not occur, else the position of its last occurrence |
| TrebuchetWords.Least | 01/01b.py:17-21 | `min` over the candidate triples picks a candidate at the smallest position |
| TrebuchetWords.Greatest | 01/01b.py:22-26 | `max` over the candidate triples picks a candidate at the greatest position |
| TrebuchetWords.OneSpellingAt | 01/01b.py:3-14 | no two entries of the digit table can both occur at the same position of a line |
| TrebuchetWords.SpellingsUnambiguous | 01/01b.py:3-14 | the digit table is unambiguous and maps every entry to a digit 1..9 |
| TrebuchetWords.SpelledAtSpec | 01/01b.py:17-26 | for an unambiguous table, the digit spelled at a position is the value of whichever entry occurs there, and none exactly when no entry occurs |
| TrebuchetWords.CandidatesSpec | 01/01b.py:17-26 | every candidate triple is an entry spelled at its position, and every entry that `find`/`rfind` locates yields a candidate |
| TrebuchetWords.NoSpellingAnywhere | 01/01b.py:17-26 | no entry is found by `find` exactly when no digit is spelled anywhere, and exactly when none is found by `rfind` |
| TrebuchetWords.FirstDigitScan | 01/01b.py:17-21 | the `min` of the `find` candidates gives the first digit met scanning left to right, and there are none exactly when the scan finds none |
| TrebuchetWords.LastDigitScan | 01/01b.py:22-26 | the `max` of the `rfind` candidates gives the first digit met scanning right to left, and there are none exactly when the scan finds none |
| TrebuchetWords.SpelledDigit | 01/01b.py:3-14 | a digit spelled through a sensible table lies in 1..9 |
| TrebuchetWords.LineNumberInMatchesScan | 01/01b.py:16-27 | for any unambiguous, sensible table, `line_number` agrees with the left-to-right / right-to-left scan, and its value lies in 11..99 |
| TrebuchetWords.LineNumberMatchesScan | 01/01b.py:16-27 | `line_number` with the puzzle's table equals the scan's value, raises ValueError (`min` of an empty sequence) when nothing is spelled, and lies in 11..99 |
| TrebuchetWords.OverlappingSpellings | 01/01b.py:16-27 | overlapping names count twice: "twone" has value 21 |
| Cubes.PartOneBag | 02/02.py:71-75 | the bag of part one has an entry for every colour |
| Cubes.ConsumeRe | 02/02.py:27-34 | the consumer yields the successive matches from the start of the string, or raises ValueError at the first place the pattern does not match |
| Cubes.MatchesCover | 02/02.py:27-34 | when the consumer succeeds, its matches are non-empty and together spell the whole string |
| Cubes.MostShown | 02/02.py:61-67 | the count kept for a colour bounds every draw's count of it and is reached by some draw (or is 0) |
| Cubes.MostShownStep | 02/02.py:63-66 | taking one more draw raises the kept count to that draw's count when it is larger |
| Cubes.Fewest | 02/02.py:62-66 | the counts kept by `power` name every colour |
| Cubes.RaiseCounts | 02/02.py:64-66 | one draw raises each colour's count to what the draw shows when that is larger and leaves every other count as it was |
| Cubes.Power | 02/02.py:61-67 | `power` is the product of the fewest red, green and blue cubes that make the game possible |
| Cubes.PossibleIffFewestFits | 02/02.py:52-67 | a game is possible for a bag exactly when the fewest cubes of each colour fit in the bag |
| Cubes.PossibleTotalBounds | 02/02.py:70-83 | part one's sum is at most the sum of all game numbers, equals it when every game is possible (and only then, for positive game numbers), and is 0 when none is |
| Schematic.AdjacentIffTouching | 03/03.py:24-30 | `is_adjacent` holds exactly when the part is within one row and one column (diagonals included) of one of the number's own digits |
| Schematic.Head | 03/03.py:43 | `read(1)` returns at most one character, a prefix of the stream, and "" exactly at the end |
| Schematic.Peekable.constructor | 03/03.py:60 | a fresh stream still has the whole text to hand out |
| Schematic.Peekable.Read | 03/03.py:43 | reading takes the first character off the underlying stream |
| Schematic.Peekable.Next | 03/03.py:38-43 | `next` hands out the first character not yet handed out (the one read ahead if any) and removes it |
| Schematic.Peekable.Peek | 03/03.py:45-48 | `peek` returns the next character without removing it from what is still to come |
| Schematic.Peekable.NonEmpty | 03/03.py:50-51 | the stream is truthy exactly when characters remain |
| Schematic.RunEnd | 03/03.py:73-75 | the run of digits from a position ends at the first non-digit or at the end of the text |
| Schematic.RunEndAt | 03/03.py:73-75 | a stretch of digits that cannot be extended is the run |
| Schematic.RunScanned | 03/03.py:70-83 | reading a whole run adds exactly one number (its decimal value, spanning its first to last column on its line) and no part |
| Schematic.ScanNewline | 03/03.py:64-67 | a newline sets the column to 0 and moves to the next line, adding nothing |
| Schematic.ScanDot | 03/03.py:68-69 | a '.' only advances the column |
| Schematic.ScanSymbol | 03/03.py:84-86 | any other non-digit becomes a part at the advanced column and the current line |
| Schematic.ScanRun | 03/03.py:70-83 | a run of digits becomes one number whose span runs from the column of its first digit to that of its last |
| Schematic.ReadDigits | 03/03.py:71-75 | the digit loop, corrected to stop at the end of the stream, collects exactly the rest of the run and advances the column once per digit |
| Schematic.ReadToken | 03/03.py:61-86 | one pass of the outer loop consumes at least one character and keeps the reader's column, line, numbers and parts equal to those of the text read so far |
| Schematic.ParseSchematic | 03/03.py:54-87 | `parse_schematic` (with the digit loop corrected, see "## Findings") returns the numbers of the maximal digit runs and the parts of the symbol characters, each at its column and line, in reading order |
| Schematic.ParsedShape | 03/03.py:54-87 | every parsed number spans at least one column and every part is a symbol |
| Schematic.AsWrittenNeverStops | 03/03.py:73 | with the test as written, the digit loop never stops once the stream is exhausted |
| Schematic.AsWrittenOnCharacter | 03/03.py:73 | on an actual character the test as written agrees with "is a digit" |
| Schematic.PartNumberSumSplit | 03/03.py:90-96 | part one's sum and the sum of the numbers touching no part add up to the sum of all numbers; part one takes all when each number touches a part and none when there are no parts |
| Schematic.AdjacentNumbers | 03/03.py:105 | the numbers adjacent to a part are exactly those of the input that touch it |
| Schematic.Stars | 03/03.py:102-104 | the parts `part_two` considers are exactly the '*' parts |
| Schematic.GearRatioSumStars | 03/03.py:99-110 | only '*' parts contribute to part two, and the sum is 0 when no part is a gear |
| Schematic.PartTwo | 03/03.py:99-110 | `part_two` is the sum, over the gears (a '*' with exactly two adjacent numbers), of the product of the two numbers |
| Scratchcards.Matches | 04/04.py:16-17 | a card's matches number at most its winning numbers and at most the numbers it has |
| Scratchcards.ScoreSpec | 04/04.py:19-23 | a card scores 0 exactly when no number matches; otherwise each further match doubles the score, which is at least the number of matches and at most 2^(winning numbers - 1) |
| Scratchcards.TotalScoreZero | 04/04.py:63-66 | part one's total is 0 exactly when no card has a match |
| Scratchcards.Added | 04/04.py:35-41 | adding matches leaves a buffer as long as the longer of the old buffer and the matches |
| Scratchcards.CopyTracker.constructor | 04/04.py:27-28 | a new tracker holds an empty buffer |
| Scratchcards.CopyTracker.Pop | 04/04.py:30-33 | `pop` returns 1 on an empty buffer, else removes and returns its first entry |
| Scratchcards.CopyTracker.AddMatches | 04/04.py:35-41 | `add_matches` adds the copies to each of the next `matches` entries, appending `copies + 1` where the buffer runs out, and leaves later entries alone |
| Scratchcards.TotalCopiesAtLeast | 04/04.py:69-78 | every card is held at least once, so the total is at least the number of cards |
| Scratchcards.NoMatchesNoCopies | 04/04.py:69-78 | without any match, each card is held exactly once |
| Scratchcards.WonFromOutOfReach | 04/04.py:35-41 | a card beyond the reach of every earlier card wins no copies |
| Scratchcards.PopCopies | 04/04.py:74 | what the tracker hands out for a card is the number of copies of that card held in the end |
| Scratchcards.PendingStep | 04/04.py:74-76 | after a card is popped and its matches are added, the buffer again holds, for each later card, 1 plus the copies won so far |
| Scratchcards.PartTwo | 04/04.py:69-78 | `part_two` equals the total number of cards held, each card counted once plus once per copy of every earlier card whose matches reach it |
| Ranges.FromStartLengthSpec | 05/05b-better-2.py:27-29 | the range built from a start and a length holds exactly `length` values, those from `start` up to `start + length - 1` |
| Ranges.ConvertSpec | 05/05b-better-2.py:31-35 | `convert` raises ValueError exactly for a value outside the source; otherwise the result sits at the same offset in the destination, and converting back returns the value when the ranges have equal size |
| Ranges.RemapFails | 05/05b-better-2.py:37-87 | `remap` raises (through `convert`) exactly when the range reaches over an empty source from both sides |
| Ranges.RemapUnmapped | 05/05b-better-2.py:47-86 | the unmapped pieces hold exactly the range's values outside the source |
| Ranges.RemapRemapped | 05/05b-better-2.py:47-86 | there is at most one remapped piece; it holds the shifted image of every value in both the range and the source, and nothing else |
| Ranges.RemapSize | 05/05b-better-2.py:47-86 | the unmapped and remapped pieces together are as large as the range |
| Ranges.RemapSpec | 05/05b-better-2.py:47-86 | a range that misses the source comes back unchanged; in general the pieces split it into the values outside the source and the shifted image of the overlap |
| Ranges.RemapNonEmpty | 05/05b-better-2.py:47-86 | remapping a non-empty range yields only non-empty pieces |
| Ranges.PairwiseSpec | 05/05a.py:81-84 | `pairwise` yields each element with its successor, one pair fewer than the elements |
| Ranges.GrouperSpec | 05/05a.py:87-90 | `grouper` yields the consecutive chunks of length n, dropping an incomplete tail |
| Ranges.InOrder | 05/05a.py:103-104 | looking up the maps by the consecutive category pairs gives, in order, the map of each pair |
| Almanac.ForwardSpec | 05/05a.py:42-46 | a map lookup moves a value by the first line whose source holds it, and leaves it alone when no source does |
| Almanac.Lookup | 05/05a.py:42-46 | `RangeMap.__getitem__` computes the lookup |
| Almanac.Min | 05/05a.py:108 | `min` returns a member no greater than any other |
| Almanac.StepsSpec | 05/05a.py:93-96 | the categories give seven transitions, from seed-to-soil to humidity-to-location |
| Almanac.PassThrough | 05/05a.py:102-105 | passing a seed through the maps raises KeyError when a map is missing, else gives its location |
| Almanac.PartOne | 05/05a.py:99-108 | `part_one` is the least location of any seed: ValueError with no seeds, KeyError for a missing map |
| AlmanacReverse.BackwardSpec | 05/05b-better.py:38-43 | a reverse lookup moves a value back by the first line whose destination holds it, and leaves it alone otherwise |
| AlmanacReverse.ReverseLookup | 05/05b-better.py:38-43 | `RangeMap.__getitem__` computes the reverse lookup |
| AlmanacReverse.Reversed | 05/05b-better.py:106 | `[::-1]` reverses the map list |
| AlmanacReverse.SeedOfLast | 05/05b-better.py:106-110 | unwinding from a location undoes the last map first |
| AlmanacReverse.Search | 05/05b-better.py:102-114 | the search returns the least location below the bound whose unwound seed lies in a seed range, or reports that none below the bound does |
| AlmanacReverse.LeastLocation | 05/05b-better.py:96-114 | `part_two` raises KeyError for a missing map, else finds the least location that leads back to a seed (within the bound) |
| AlmanacReverse.BackwardThenForward | 05/05b-better.py:38-43 | for a map that is one-to-one on the values it touches, the forward lookup undoes the reverse lookup |
| AlmanacReverse.ForwardThenBackward | 05/05b-better.py:38-43 | for such a map, the reverse lookup undoes the forward lookup |
| AlmanacReverse.SeedOfLocation | 05/05b-better.py:106-110 | through one-to-one maps, unwinding a location and passing the seed forward are inverse |
| AlmanacReverse.LeastLocationMeaning | 05/05b-better.py:96-114 | for one-to-one maps, the location found is the location of some seed and no seed has a smaller non-negative location |
| AlmanacRanges.InsertMembers | 05/05b-better-2.py:196 | insertion adds exactly the one range |
| AlmanacRanges.InsertAscending | 05/05b-better-2.py:196 | insertion into an ascending list keeps it ascending |
| AlmanacRanges.SortSpec | 05/05b-better-2.py:196 | `sorted` yields an ascending permutation of the ranges |
| AlmanacRanges.SameMembers | 05/05b-better-2.py:196 | a permutation of ranges covers the same values and has the same total size |
| AlmanacRanges.MinStart | 05/05b-better-2.py:200 | the minimum start is the start of one of the ranges and no greater than any other |
| AlmanacRanges.RemapRanges | 05/05b-better-2.py:187-192 | the loop over the value ranges for one map line collects their unmapped pieces and appends their remapped pieces, failing as soon as one `remap` fails |
| AlmanacRanges.RemapAllSpec | 05/05b-better-2.py:187-192 | after one map line, the unmapped pieces cover exactly the values outside its source, the remapped pieces exactly the shifted values inside it, and the total size is unchanged |
| AlmanacRanges.ForwardSnoc | 05/05a.py:42-46 | adding a line to a map changes the lookup only for values no earlier source holds |
| AlmanacRanges.LinesStateSpec | 05/05b-better-2.py:185-192 | after the first k lines, the values still unmapped are those no line so far holds, the remapped ones hold the lookup of every other value, and no size is lost |
| AlmanacRanges.LinesStateOrigin | 05/05b-better-2.py:185-192 | every value among the remapped ranges is the lookup of some value of the input |
| AlmanacRanges.ApplyRangeMap | 05/05b-better-2.py:185-196 | the processing of one transition computes the sorted union of unmapped and remapped ranges |
| AlmanacRanges.ApplyMapSpec | 05/05b-better-2.py:185-196 | after one transition the ranges cover the lookup of every covered value, keep the total size, and are ascending |
| AlmanacRanges.ApplyMapOrigin | 05/05b-better-2.py:185-196 | every value covered after one transition is the lookup of a value covered before |
| AlmanacRanges.Transition | 05/05b-better-2.py:178-196 | a transition raises KeyError for a missing map, else applies it |
| AlmanacRanges.ApplyAll | 05/05b-better-2.py:177-196 | the loop over the transitions applies every map in turn, stopping at the first failure |
| AlmanacRanges.ApplyMapsSpec | 05/05b-better-2.py:177-196 | after the transitions, the ranges cover the location of every seed covered before and keep the total size |
| AlmanacRanges.ApplyMapsOrigin | 05/05b-better-2.py:177-196 | every value covered after the transitions is the location of some covered seed |
| AlmanacRanges.ApplyMapsNonEmpty | 05/05b-better-2.py:177-196 | non-empty ranges stay non-empty through every transition |
| AlmanacRanges.SeedRangesNonEmpty | 05/05b-better-2.py:171-174 | positive seed lengths give non-empty seed ranges |
| AlmanacRanges.PartTwo | 05/05b-better-2.py:155-201 | `part_two` computes the least start after all transitions (ValueError when no range is left, KeyError for a missing map) |
| AlmanacRanges.PartTwoMeaning | 05/05b-better-2.py:155-201 | the answer is at most the location of every seed in the seed ranges and, when every seed length is positive, is the location of one of them |
| CamelCards.Distinct | 07/07.py:33 | the keys of the counter: no repeats, exactly the cards of the hand |
| CamelCards.TallySpec | 07/07.py:33 | the counter holds one positive count per distinct card, and the counts add up to the hand's size |
| CamelCards.SortDescSpec | 07/07.py:33 | `sorted(..., reverse=True)` yields a descending permutation of the counts with the same sum |
| CamelCards.DescendingUnique | 07/07.py:33 | two descending lists with the same members are equal, so the sorted counts do not depend on key order |
| CamelCards.CountsSpec | 07/07.py:33 | the sorted counts are descending, positive, one per distinct card, and add up to the hand's size |
| CamelCards.TypeOfPermutation | 07/07.py:32-46 | the hand type depends only on which cards the hand holds, not on their order |
| CamelCards.FivePatterns | 07/07.py:34-46 | the descending positive counts of five cards are one of the seven listed patterns |
| CamelCards.FiveCardTypes | 07/07.py:32-46 | a hand of five always matches one of the listed patterns, and is high card exactly when its cards all differ |
| CamelCards.RankTableSpec | 07/07.py:58-60 | `enumerate(reversed(labels))` ranks the label at position i as (number of labels - 1 - i) |
| CamelCards.RankTableBijection | 07/07.py:58-60 | for distinct labels, the rank table is a bijection from the labels onto 0..n-1 |
| CamelCards.CardOrderSpec | 07/07.py:58-60 | `card_order` ranks A highest (12) down to 2 (0), one distinct rank per label |
| CamelCards.CardRanksInjective | 07/07.py:48-50 | with distinct ranks, two hands have the same card ranks exactly when they have the same cards |
| CamelCards.LexIrreflexive | 07/07.py:55 | tuple comparison is irreflexive |
| CamelCards.LexTransitive | 07/07.py:55 | tuple comparison is transitive |
| CamelCards.LexTotal | 07/07.py:55 | any two different tuples are ordered one way or the other |
| CamelCards.LexAsymmetric | 07/07.py:55 | tuple comparison is asymmetric |
| CamelCards.SortBySpec | 07/07.py:74 | `sorted` yields an ascending permutation of the hands |
| CamelCards.AscendingUnique | 07/07.py:74 | when no two hands tie, the ascending order of the hands is unique |
| CamelCards.LessThanSpec | 07/07.py:52-55 | `__lt__` compares hand types first and card ranks only between hands of the same type, and raises KeyError exactly when a card has no rank |
| CamelCards.WinningsSpec | 07/07.py:72-75 | the winnings weight each bid by its place in ascending order, and do not depend on the order the hands are listed in when no two hands tie |
| CamelJokers.JokerCardOrderSpec | 07/07b.py:72-74 | with jokers, J ranks lowest (0), 2 next and A highest (12), one distinct rank per label |
| CamelJokers.CounterOfSpec | 07/07b.py:31 | `Counter` maps exactly the hand's cards to how often each occurs |
| CamelJokers.FirstMaxSpec | 07/07b.py:44 | `max(..., key=count)` picks the first of the largest counts |
| CamelJokers.JokerHandType | 07/07b.py:28-60 | the joker `hand_type` (counter, pop the jokers, add them to the largest count) computes the joker hand type |
| CamelJokers.BoostedSpec | 07/07b.py:31-47 | after the jokers join, the counts are positive, still add up to the hand's size, and number one fewer when jokers joined another card |
| CamelJokers.JoinedSpec | 07/07b.py:44-45 | adding the jokers to the largest count adds their number to the sum and keeps every count positive |
| CamelJokers.OnlyJokers | 07/07b.py:39-42 | nothing is left after popping the jokers exactly when every card is a joker |
| CamelJokers.NoJokerSameType | 07/07b.py:32 | without a joker the hand type is that of part one |
| CamelJokers.AllJokers | 07/07b.py:39-42 | a hand of jokers only is five of a kind |
| CamelJokers.JokerTargetSpec | 07/07b.py:44 | the jokers join a non-joker card of the hand that occurs at least as often as any other non-joker card |
| CamelJokers.ReplaceCount | 07/07b.py:44-45 | turning the jokers into a card c moves their count onto c and leaves every other count unchanged |
| CamelJokers.JokersJoinTarget | 07/07b.py:28-60 | the joker hand type is the plain hand type of the hand whose jokers are turned into the card they join |
| CamelJokers.JokerTypeOfPermutation | 07/07b.py:28-60 | the joker hand type does not depend on the order of the cards, even though `max` breaks ties by key order |
| CamelJokers.JokerRanksLowest | 07/07b.py:66-74 | between hands of the same type, one starting with a joker sorts below one that does not |
| CamelJokers.PartTwoSpec | 07/07b.py:90-93 | part two's winnings weight bids by ascending joker order and do not depend on the order the hands are listed in when no two hands tie |
| CamelJokersBest.StrengthMonotone | 07/07b.py:33-37 | for five cards, a hand whose largest count and largest two counts are both at least as large is at least as strong |
| CamelJokersBest.TopDominated | 07/07b.py:33-45 | no way of replacing the jokers gives a larger largest count than joining them to the target card |
| CamelJokersBest.PairDominated | 07/07b.py:33-45 | no way of replacing the jokers gives a larger sum of the two largest counts than joining them to the target card |
| CamelJokersBest.JokersBest | 07/07b.py:33-45 | the joker hand type is at least as strong as the type of any hand the jokers could stand for |
| Wasteland.EncodeTurnsSpec | 08/08.py:19-23 | the turn line decodes exactly when every character is L or R (KeyError otherwise), L to 0 and R to 1 |
| Wasteland.TurnsRoundTrip | 08/08.py:19-23 | decoding the turns and spelling them back gives the line, and spelling turns 0/1 and decoding gives the turns |
| Wasteland.WalkNext | 08/08.py:39-42 | each step takes the fork of the current node chosen by the next turn, cycling through the turns |
| Wasteland.WalkStopped | 08/08.py:41 | once a step meets a missing node (KeyError) the walk stays failed |
| Wasteland.WalkRestart | 08/08.py:40-42 | at the end of a whole number of rounds the walk continues as a fresh walk from the node reached |
| Wasteland.WalkRepeats | 08/08.py:40-42 | a node the walk returns to after the same whole number of rounds is reached again after every multiple of them |
| Wasteland.Navigate | 08/08.py:34-42 | `navigate` yields the walk's nodes after each step, stopping with KeyError at a missing node; nothing when there are no turns |
| Wasteland.FirstMatch | 08/08.py:47-51 | `next` over the walk returns the first step accepted, raises StopIteration with no turns and KeyError at a missing node, or runs past the bound without a match |
| Wasteland.PartOne | 08/08.py:45-52 | `part_one` is the least step at which the walk from AAA stands on ZZZ; StopIteration exactly without turns; any other exception is the walk's own KeyError at a step before it reached ZZZ; running out of fuel means no step within fuel reached ZZZ |
| Wasteland.Named | 08/08.py:57 | the start nodes are exactly the node names ending in A |
| Wasteland.Ends | 08/08.py:58 | the end nodes are exactly the node names ending in Z |
| Wasteland.FoundEnd | 08/08.py:61-65 | the first accepted step is a whole number of rounds, at least one |
| Wasteland.PartTwo | 08/08.py:55-67 | `part_two` records, for each start, the rounds until its walk first stands on an end node at the end of a round, and answers their lcm times the number of turns; when it stops early, the starts before the one it stopped on have their rounds recorded, and that start's walk raised within fuel steps before any accepted step, or had no accepted step within fuel |
| Wasteland.PartTwoMeaning | 08/08.py:55-67 | when each ghost's walk returns to its end node after as many steps again, every ghost stands at its end node at the answer, and the answer divides every common multiple of their step counts that is a whole number of rounds |
| Arith.GcdDivides | 08/08.py:67 | the gcd divides both numbers |
| Arith.GcdGreatest | 08/08.py:67 | every common divisor divides the gcd |
| Arith.LcmMultiple | 08/08.py:67 | the lcm of two positive numbers is a positive multiple of both |
| Arith.LcmLeast | 08/08.py:67 | the lcm divides every common multiple |
| Arith.LcmAllMultiple | 08/08.py:67 | `math.lcm` of positive numbers is a positive multiple of each |
| Arith.LcmAllLeast | 08/08.py:67 | `math.lcm` divides every common multiple |
| Mirage.DiffAt | 09/09.py:25 | the differences hold each value's successor minus the value, one fewer than the values |
| Mirage.ExtrapolateStep | 09/09.py:23-32 | the prediction is the last value plus the prediction of the differences, stopping when the differences are all zero |
| Mirage.PredictNext | 09/09.py:21-32 | `predict_next` (the stack of difference rows, then the sum of their last values) computes the prediction, and raises IndexError on an empty line |
| Mirage.PredictionUnique | 09/09.py:21-32 | the prediction is the only next value for which the same number of difference rows ends in all zeros |
| Mirage.LevelsShrink | 09/09.py:23-28 | each difference row is one shorter than the one above |
| Mirage.DepthBound | 09/09.py:23-28 | the number of difference rows is at most the number of values, so the loop ends |
| Mirage.ConstantPredicts | 09/09.py:21-32 | a constant line predicts the same constant |
| Mirage.ArithmeticPredicts | 09/09.py:21-32 | an arithmetic progression predicts its next term |
| Mirage.DiffsReverse | 09/09.py:25 | the differences of the reversed line are the negated, reversed differences |
| Mirage.ExtrapolateNegate | 09/09.py:21-32 | negating a line negates its prediction |
| Mirage.BackwardsIsReversed | 09/09.py:48 | predicting the reversed line extrapolates the original backwards: the first value minus the backward prediction of the differences |
| Mirage.TotalFails | 09/09.py:35-50 | the sum raises IndexError exactly when some line is empty |
| Mirage.PartOne | 09/09.py:35-41 | `part_one` is the sum of the predictions of the lines |
| Mirage.PartTwo | 09/09.py:44-50 | `part_two` is the sum of the predictions of the reversed lines |
| Pipes.Flipped | 10/10.py:25-32 | the flipped direction differs from the direction and has the opposite offset |
| Pipes.FlippedInvolution | 10/10.py:25-32 | flipping twice gives the direction back |
| Pipes.StepBack | 10/10.py:22-32 | a step followed by a step in the flipped direction returns to where it began |
| Pipes.StepParity | 10/10.py:22-23 | every step changes the parity of row plus column |
| Pipes.TileOrderListsTiles | 10/10.py:35-42 | the tile order used for `next` lists exactly the tiles of `transitions` |
| Pipes.TilesConnectTwo | 10/10.py:35-42 | every tile connects exactly two directions |
| Pipes.TilesDistinct | 10/10.py:35-42 | no two tiles connect the same pair of directions |
| Pipes.TileForEveryPair | 10/10.py:35-42 | a set of directions is the connection set of some tile exactly when it has two members |
| Pipes.ThroughSymmetric | 10/10.py:44-47 | the departure table of a tile does not depend on the order its two directions are listed in |
| Pipes.ExitSpec | 10/10.py:44-47 | entering a tile moving in direction d goes on exactly when the tile connects back the opposite way, and leaves by its other connection; KeyError otherwise |
| Pipes.At | 10/10.py:61-71 | indexing the maze succeeds exactly inside it |
| Pipes.Place | 10/10.py:83 | `maze[start] = start_tile` changes that one cell and nothing else |
| Pipes.FirstIndex | 10/10.py:56 | the first index of a character in a row, or none when it does not occur |
| Pipes.FindStartFrom | 10/10.py:55-56 | `argwhere(...)[0]` is the first S in row-major order; IndexError when there is none |
| Pipes.AcceptedConnectsBack | 10/10.py:61-72 | the tiles a neighbour must hold are exactly those connecting back toward the start |
| Pipes.ConnectingByDirection | 10/10.py:60-72 | the start's connections are the union of the four neighbour tests |
| Pipes.FirstTile | 10/10.py:73-76 | `next` over the tiles returns one whose connections are the given set, or raises StopIteration when none has them |
| Pipes.Probe | 10/10.py:61-72 | a neighbour test raises IndexError exactly when the neighbour lies beyond the far edge, else adds the direction when the neighbour connects back |
| Pipes.ConnectingNeighbours | 10/10.py:59-72 | the four tests collect the start's connecting directions, raising IndexError exactly for a start on the last row or column |
| Pipes.ClassifyStart | 10/10.py:59-76 | `classify_start` raises IndexError exactly for a start on the last row or column, otherwise returns the tile whose connections are exactly the start's connecting neighbours, and raises StopIteration when they are not exactly two |
| Pipes.Arrive | 10/10.py:97-101 | arriving at a cell keeps the walker at that cell |
| Pipes.WalkOn | 10/10.py:96-101 | a walk that moves on steps in its heading and turns as the tile it reaches leads |
| Pipes.StepLoop | 10/10.py:86-101 | `step_loop` read through `takewhile` yields the start and the walk's cells up to its return to the start or a stop at S; it raises IndexError or KeyError only where the walk, not yet back at the start, leaves the maze or meets a tile that does not connect back (`StuckWithin`); it runs out of fuel only when the walk moves on for every step without returning (`MovesOn`) |
| Pipes.ClosedAtStart | 10/10.py:86-98 | a walk that steps back onto the start has traced a loop |
| Pipes.EndedAt | 10/10.py:99-100 | a walk that stops at an S has traced a loop ending there |
| Pipes.RaisedAt | 10/10.py:97-101 | a walk that raised never came back to the start first |
| Pipes.MovedOn | 10/10.py:96-101 | a walk that moves on to a new cell extends the cells traced |
| Pipes.WalkParity | 10/10.py:96-98 | after k steps the walker's row-plus-column parity is the start's shifted by k |
| Pipes.ReturnIsEven | 10/10.py:86-87 | a loop that returns to the start has an even number of cells, so the assertion holds for it |
| Pipes.TracedInBounds | 10/10.py:97-99 | every cell of a loop found from a start inside the maze lies inside the maze |
| Pipes.Loop | 10/10.py:80-86 | finding the start, classifying and placing its tile and walking from one of its directions gives the maze's loop; IndexError exactly when there is no start or the start is on the far edge, StopIteration when the start does not have exactly two connecting neighbours; otherwise a raise is the walk getting stuck within fuel steps and running out of fuel is the walk moving on without returning |
| Pipes.PartOne | 10/10.py:79-88 | `part_one` is half the length of the loop; AssertionError only when the walk stopped at a second S after an odd number of cells; the other exceptions and running out of fuel are characterised as for `Pipes.Loop` |
| Pipes.CrossingCells | 10/10.py:116 | the index list holds exactly the loop cells whose tile is a vertical pipe, F or 7 |
| Pipes.MarkCrossings | 10/10.py:115-118 | the marks are 1 on the loop's crossing cells and 0 elsewhere, or 1 everywhere when the index list is empty |
| Pipes.CumulativeRows | 10/10.py:121 | `cumsum` along each row gives every cell the marks at or to its left |
| Pipes.ClearLoop | 10/10.py:122 | the sums of the loop cells are set to 0 and no other sum changes |
| Pipes.CountOdd | 10/10.py:124 | the count is the number of cells off the loop with an odd number of crossings at or to their left |
| Pipes.CountEnclosed | 10/10.py:115-124 | marking, summing, clearing and counting give the number of enclosed cells |
| Pipes.PartTwo | 10/10.py:104-124 | `part_two` is the number of cells off the loop with an odd number of crossing cells at or to their left in their row; the exceptions and running out of fuel are characterised as for `Pipes.Loop` |
| Pipes.EnclosedByLoop | 10/10.py:115-124 | once the loop is found, its cells lie in the maze and the count is the enclosed cells of the maze with the start's tile placed |
| Cosmos.RowGalaxies | 11/11.py:20 | the galaxies of a row from a column on, in reading order |
| Cosmos.GalaxiesFrom | 11/11.py:20 | the galaxies of the rows from r on, in reading order |
| Cosmos.Galaxies | 11/11.py:20 | `argwhere(galaxy == '#')` lists exactly the galaxies, in reading order |
| Cosmos.EmptyRows | 11/11.py:21-23 | the flags mark exactly the rows holding only empty space |
| Cosmos.EmptyColumns | 11/11.py:21-22 | the flags mark exactly the columns holding only empty space |
| Cosmos.CumSumStep | 11/11.py:22-23 | each running count adds its own flag to the previous count |
| Cosmos.CumSumCounts | 11/11.py:22-23 | `cumsum` at i is the number of flags set at or before i |
| Cosmos.CumSumGrowth | 11/11.py:22-23 | between two positions the running count grows by at least 0 and at most their distance |
| Cosmos.ExpandedGalaxy | 11/11.py:16-28 | each galaxy moves down by factor - 1 per empty row at or above it and right by factor - 1 per empty column at or left of it |
| Cosmos.ExpandByOne | 11/11.py:16-28 | with a factor of 1 no galaxy moves |
| Cosmos.ShiftSpreads | 11/11.py:22-25 | with a factor of at least 1, shifted coordinates are at least as far apart as the originals |
| Cosmos.ExpansionSpreads | 11/11.py:16-28 | with a factor of at least 1, the galaxies keep their reading order and no two come closer |
| Cosmos.ExpansionKeepsOrder | 11/11.py:16-28 | with a factor of at least 1, the expanded galaxies are still in reading order |
| Cosmos.ComputeDistances | 11/11.py:16-42 | an image without rows fails, exactly, with AxisError (parsing it gives a one-dimensional array, so `all(axis=1)` has no axis 1); any other image succeeds, and `compute_distances` is then the sum of the Manhattan distances over all pairs of expanded galaxies (an image of empty rows gives 0) |
| Cosmos.PairDistancesGrow | 11/11.py:37-41 | when every pair is at least as far apart in one listing as in another, so is the total |
| Cosmos.ExpansionNeverShrinks | 11/11.py:32-42 | with a factor of at least 1, the total distance after expansion is at least the total before |
| Springs.SplitOnBroken | 12/12.py:154 | splitting a row at broken springs always yields at least one piece, as `str.split` does |
| Springs.SplitJoin | 12/12.py:154 | joining the pieces of the split with one broken spring between neighbours gives back the row: the split loses nothing |
| Springs.SplitConcat | 12/12.py:154 | splitting two rows joined by a broken spring gives the pieces of the first followed by the pieces of the second |
| Springs.FlattenSplit | 12/12.py:154 | the pieces of the split, concatenated, are exactly the springs that are not broken, in order |
| Springs.ChunksAreUnbroken | 12/12.py:152-156 | every chunk handed to `test_combinations` is non-empty and holds no broken spring |
| Springs.ChunksKeepOrder | 12/12.py:152-156 | the chunks, concatenated, are the row's non-broken springs in their original order |
| Springs.ChunksIgnoreSeparatorLength | 12/12.py:152-156 | two adjacent broken springs give the same chunks as one: empty pieces are dropped |
| Springs.RunsSplit | 12/12.py:63-148 | the runs of working springs on both sides of a broken spring are the runs of each side, in order |
| Springs.RunsEmpty | 12/12.py:70-81 | a row has no run of working springs if and only if it has no working spring (the `len(counts) == 0` case) |
| Springs.TestCombinationsCounts | 12/12.py:63-148 | for chunks free of broken springs and positive group sizes, `test_combinations` equals the number of resolutions of the unknown springs of the laid-out chunks whose runs are exactly the groups |
| Springs.ArrangementsOfChunks | 12/12.py:151-156 | cutting a row into chunks and laying them out again does not change the number of arrangements |
| Springs.CountCombinationsCorrect | 12/12.py:151-158 | for positive group sizes, `count_combinations` is the number of ways to resolve the unknown springs so that the runs of working springs are exactly the groups |
| Springs.ArrangementsResolved | 12/12.py:63-148 | a row without unknown springs has one arrangement if its runs are the groups and none otherwise |
| Springs.ArrangementsBound | 12/12.py:63-148 | a row has at most 2^k arrangements, k being its number of unknown springs |
| Springs.RepeatAt | 12/12.py:178-179 | entry i of a list repeated n times is entry i mod the list's length |
| Springs.UnfoldShape | 12/12.py:178-179 | the unfolded row has 5n+4 springs, an unknown spring at each of the four joins and the original spring elsewhere; the group list is five copies of the original |
| SpringsExamples.UnknownOneGroup | 12/12.py:63-148 | a chunk of k unknown springs holds one group of size 1 in k ways |
| SpringsExamples.UnknownTwoOne | 12/12.py:63-148 | a chunk of k unknown springs holds groups 2,1 in the number of ways to place them with a gap |
| SpringsExamples.Example1 | 12/12.py:151-158 | the row `???.###` with groups 1,1,3 has exactly one arrangement |
| SpringsExamples.Example2 | 12/12.py:151-158 | the row `?###????????` with groups 3,2,1 has exactly ten arrangements |
| SpringsMemo.Memo.constructor | 12/12.py:45-48 | a new memo starts with an empty cache |
| SpringsMemo.Memo.Call | 12/12.py:50-57 | a memoised call returns the value of `test_combinations` whether or not the key was cached, records it under the call's key, and keeps every earlier entry |
| SpringsMemo.Memo.Evaluate | 12/12.py:63-148 | the body of `test_combinations`, recursing through the memo, returns the counting function's value and keeps every earlier cache entry |
| SpringsMemo.CountCombinations | 12/12.py:151-158 | with a fresh memo, the count is `test_combinations` of the row's chunks, and for positive groups the number of arrangements of the row |
| SpringsMemo.RepeatPositive | 12/12.py:179 | repeating a list of positive group sizes keeps them positive, so the unfolded record of part two meets the correctness theorem's hypothesis |
| SpringsMemo.TotalCombinations | 12/12.py:161-185 | for a report with positive groups, the total of part one (or of part two, with every record unfolded) is the sum of the arrangement counts of the records |
| Mirrors.Reverse | 13/13.py:36 | the reversed line has the same length and holds entry k at position length-1-k |
| Mirrors.MirrorPointPairs | 13/13.py:32-37 | position i is a mirror point of a line if and only if every cell j steps left of i equals the cell j steps right, for as far as the shorter side reaches |
| Mirrors.MirrorPointsInside | 13/13.py:32 | mirror points lie strictly inside the line; a line of at most one cell has none |
| Mirrors.MirrorPointsForLine | 13/13.py:29-38 | the loop collects exactly the positions at which the line is mirrored |
| Mirrors.Update | 13/13.py:52 | `Counter.update` with a set: the counter's keys afterwards are the old keys and the set's elements |
| Mirrors.MirrorCountsForBlock | 13/13.py:41-54 | the per-row sets are each row's mirror points, and the counter holds, for every position some row has, the number of rows that have it, and nothing else |
| Mirrors.AllRowsCounted | 13/13.py:41-54 | the count of a position reaches the number of rows if and only if every row has it |
| Mirrors.Intersection | 13/13.py:59 | `set.intersection(*sets)` holds exactly the positions in every set |
| Mirrors.MirroredIsFullCount | 13/13.py:57-59 | a block is mirrored at a position if and only if that position's count equals the number of rows |
| Mirrors.MirrorPointsForBlock | 13/13.py:57-59 | the block's mirror positions are exactly those mirroring every row; a block without rows raises TypeError |
| Mirrors.Transpose | 13/13.py:68 | `block.T`: cell (c, r) of the transpose is cell (r, c) of the block |
| Mirrors.TransposeTwice | 13/13.py:68 | transposing twice gives back the block |
| Mirrors.ScoreForBlock | 13/13.py:62-73 | the score is a vertical mirror position if there is one, else 100 times a horizontal one; it fails exactly when there is neither, with ValueError (TypeError when the transposed block has no rows) |
| Mirrors.FlipOneCell | 13/13.py:92-93 | flipping a cell changes that cell only, and flipping it again restores the line |
| Mirrors.FirstWithout | 13/13.py:86-88 | the first row whose mirror set lacks the position, every earlier row having it |
| Mirrors.OnlyRowWithout | 13/13.py:83-88 | when the count is one less than the number of rows, the row found is the only one lacking the position |
| Mirrors.SmudgeFixesBlock | 13/13.py:83-95 | flipping the smudged cell makes the block mirrored at the position, which it was not before |
| Mirrors.FirstFix | 13/13.py:91-95 | the first cell of the line whose flip makes the position a mirror point, or none when no flip does |
| Mirrors.NoFixFor | 13/13.py:86-95 | when no flip of the one row lacking the position repairs it, no smudge anywhere makes the block mirrored there |
| Mirrors.SmudgeAt | 13/13.py:85-95 | for one counted position, returns the row lacking it and the first cell of that row whose flip repairs the block there (`Fixes`: a block of at least two rows, every row but that one mirroring the position), or none exactly when no such flip exists |
| Mirrors.FirstRepairable | 13/13.py:84-95 | the first position in the Counter's order that one flip repairs, in the sense of `Fixes`; none exactly when no position of that order is repairable |
| Mirrors.FirstRepairableAt | 13/13.py:84-95 | a repairable position with no repairable position before it in the Counter's order is the first repairable one |
| Mirrors.NoneRepairableAnywhere | 13/13.py:79-95 | when the order lists every counted position and none is repairable, no position of the block is repairable by one flip |
| Mirrors.FindSmudge | 13/13.py:76-95 | the result is the first position in the Counter's order that every row but one mirrors, in a block of at least two rows, and that one flip in that row repairs; the smudge is that row and its first such cell; none when no position is repairable in that sense (so always none for a block of one row, whose expected count 0 is never counted) |
| Mirrors.ScoreForSmudgedBlock | 13/13.py:98-109 | the score is the first repairable position (as for FindSmudge) of the block in its Counter's order, else 100 times the first repairable position of the transposed block in its order; ValueError exactly when neither block has a position repairable in that sense |
| Dish.CountConcat | 14/14.py:39 | the number of round rocks in two stretches joined is the sum of their counts |
| Dish.WallIsFirst | 14/14.py:33-36 | the stop found is the first cube rock of the column, or its end |
| Dish.CountRolled | 14/14.py:41 | a stretch rolled with n round rocks holds exactly n round rocks |
| Dish.Settle | 14/14.py:23-45 | tilting a column keeps its length |
| Dish.SettleParts | 14/14.py:38-41 | a tilted column is the rolled stretch above its first cube rock, then that cube rock, then the rest tilted |
| Dish.SettleKeepsWalls | 14/14.py:37-41 | tilting leaves every cube rock where it was, creates none, and leaves only '#', 'O' and '.' cells |
| Dish.SettleKeepsRoundRocks | 14/14.py:39-41 | tilting a column neither loses nor creates round rocks |
| Dish.SettleSplit | 14/14.py:38-41 | a cube rock splits a column into two parts that tilt independently |
| Dish.SettleIdempotent | 14/14.py:38-41 | tilting an already tilted column changes nothing |
| Dish.SettlePacked | 14/14.py:38-41 | in a tilted column no empty cell lies directly above a round rock |
| Dish.FixedIffPacked | 14/14.py:38-41 | a column is left unchanged by tilting if and only if its cells are tidy and no empty cell lies directly above a round rock |
| Dish.StretchStep | 14/14.py:38-41 | one pair of consecutive cube rocks: the stretch between them holds at most its length in round rocks, and tilting the prefix up to the next cube rock appends the cube rock and the rolled stretch |
| Dish.Cubes | 14/14.py:33-36 | `flatnonzero(column == '#')`: the positions of every cube rock of the column, increasing |
| Dish.OpenBetween | 14/14.py:38 | no cube rock lies strictly between two consecutive entries of the cube-rock positions |
| Dish.FillStretch | 14/14.py:40-41 | writes the cube rock at top and the rolled round rocks below it, leaving the cells from the next stop on empty |
| Dish.SettleColumn | 14/14.py:32-42 | the loop over consecutive cube rocks builds a fresh column equal to the tilted column |
| Dish.SettlePadded | 14/14.py:25-28 | padding a column with a cube rock on top does not change how the rest tilts |
| Dish.Column | 14/14.py:32 | `rocks[:, x]`: the column has one cell per row, cell r being row r's cell x |
| Dish.North | 14/14.py:23-45 | the platform tilted north has the shape of the original |
| Dish.FromColumns | 14/14.py:44 | `numpy.c_` of the columns: cell (r, c) of the result is cell r of column c |
| Dish.TiltNorth | 14/14.py:23-45 | `tilt_north` returns the platform with every column tilted towards row 0 |
| Dish.NorthColumn | 14/14.py:23-45 | each column of the north-tilted platform is that column tilted |
| Dish.NorthKeepsWalls | 14/14.py:37-41 | tilting the platform north keeps every cube rock in place and creates none |
| Dish.NorthKeepsRoundRocks | 14/14.py:39-41 | tilting north keeps the number of round rocks in every column |
| Dish.NorthIdempotent | 14/14.py:23-45 | tilting north twice is the same as tilting once |
| Dish.Reverse | 14/14.py:49-57 | the reversed row holds entry k at position length-1-k |
| Dish.RotateLeft | 14/14.py:49 | `rot90(k=1)`: a counter-clockwise quarter turn, cell (i, j) taken from (j, width-1-i) |
| Dish.RotateRight | 14/14.py:57 | `rot90(k=-1)`: a clockwise quarter turn, cell (i, j) taken from (height-1-j, i) |
| Dish.Turn | 14/14.py:53 | `rot90(k=2)`: a half turn, cell (i, j) taken from (height-1-i, width-1-j) |
| Dish.QuarterTurnsUndo | 14/14.py:48-57 | a quarter turn one way undoes a quarter turn the other way |
| Dish.HalfTurnsUndo | 14/14.py:52-53 | two half turns give back the platform |
| Dish.West | 14/14.py:56-57 | the platform tilted west has the shape of the original |
| Dish.East | 14/14.py:48-49 | the platform tilted east has the shape of the original |
| Dish.South | 14/14.py:52-53 | the platform tilted south has the shape of the original |
| Dish.WestByRotation | 14/14.py:56-57 | turning clockwise, tilting north and turning back tilts every row towards column 0 |
| Dish.EastByRotation | 14/14.py:48-49 | turning counter-clockwise, tilting north and turning back tilts every row towards its last column |
| Dish.SouthByRotation | 14/14.py:52-53 | a half turn, a north tilt and a half turn back tilt every column towards the last row |
| Dish.TiltWest | 14/14.py:56-57 | `tilt_west` rolls every round rock of each row as far towards column 0 as it goes |
| Dish.TiltEast | 14/14.py:48-49 | `tilt_east` rolls every round rock of each row as far towards the last column as it goes |
| Dish.TiltSouth | 14/14.py:52-53 | `tilt_south` rolls every round rock of each column as far towards the last row as it goes |
| Dish.WestIdempotent | 14/14.py:56-57 | tilting west twice is the same as tilting once |
| Dish.Cycle | 14/14.py:60-61 | a spin cycle keeps the platform's shape |
| Dish.CyclesShape | 14/14.py:60-61 | any number of spin cycles keeps the platform's shape |
| Dish.IterateRocks | 14/14.py:60-61 | `iterate_rocks` tilts north, west, south and east in that order |
| Dish.IterateShift | 14/14.py:94-101 | two equal states of an iteration stay equal after the same number of further steps |
| Dish.IterateAdd | 14/14.py:94-101 | b steps after a steps are a+b steps |
| Dish.IterateRepeat | 14/14.py:94-101 | once the iteration repeats between steps p and q, the state after t steps is the state after p plus the remainder of t-p modulo the period |
| Dish.ModShift | 14/14.py:94-95 | skipping the remaining cycles modulo the period from step i lands at the same phase as from the first sighting p |
| Dish.ScoreByCells | 14/14.py:64-67 | the load summed row by row, each row's round rocks weighted by its distance from the south edge, equals the sum of every round rock's own weight |
| Dish.RowsByCells | 14/14.py:64-67 | from row r on, the row-by-row load equals the cell-by-cell load |
| Dish.RowByCells | 14/14.py:66-67 | the cell-by-cell load of a row from column c on is the row's weight times its round rocks from c on, plus the later rows |
| Dish.PartOne | 14/14.py:70-75 | part one is the load of the platform tilted north |
| Dish.PartTwo | 14/14.py:82-108 | part two is the load after the given number of spin cycles, whether or not a repeated platform shortcuts the loop |
| Dish.SkipRepeats | 14/14.py:88-102 | when the platform after i cycles was seen after an earlier number, spinning only the remainder modulo the period gives the load after all cycles |
| Dish.SpinTimes | 14/14.py:99-100 | the loop spins the platform exactly the given number of times |
| Dish.CyclesNext | 14/14.py:104 | one more spin cycle is a spin cycle applied to the current platform |
| Dish.SkipCycles | 14/14.py:94-101 | from a repeated platform, spinning the remainder of the remaining cycles modulo the period reaches the platform after all cycles |

## Left out

- Cubes.ConsumeRe: the pattern is assumed to advance on every non-empty text; with a pattern that matches the empty string at the start of a non-empty text, consume_re (02/02.py:27-33) loops for ever, and the model does not cover that. DRAW_RE and CUBE_RE (02/02.py:22-23) always consume at least one character of a non-empty text (a `;` not followed by a space, or a missing digit, is a miss), so the parsers never meet that case.
- Reading standard input, the regular-expression and `str.split` line parsers that only cut input text into fields (`parse_line`, `parse_card`, `parse_hands`, `parse_map`, `parse_report`, `parse_terrain`, `parse_rocks`, …), printing, logging and the `usage` handling of the command line: every operation takes the parsed values as parameters and returns what the source prints.
- Loops that end only when the input allows it (`navigate` with `next` in 08/08.py, the location search of 05/05b-better.py, `step_loop` in 10/10.py) take a `fuel` bound and report `Unfinished` when it runs out; an input on which the source loops for ever is one on which every bound runs out.
- numpy integers are 64 bits wide and wrap around (09/09.py, 10/10.py, 11/11.py, 14/14.py); the model uses unbounded integers, which agree with the source as long as no intermediate value leaves the 64-bit range.
- Pipes.At: a negative index into a numpy array counts from the far end; the model reports IndexError for it instead, so a loop that would step off the top or left edge fails where the source reads from the opposite edge.
- Pipes.Loop: the first direction taken from the start (an element of a set, 10/10.py:94) is any element the set holds, chosen with `:|`; the properties proved hold whichever one is taken.
- Pipes.PartOne, Pipes.PartTwo, Cosmos.Expand, Cosmos.ComputeDistances: a maze or image with rows of different lengths cannot be turned into a two-dimensional numpy array, so the model requires rectangular input.
- Cosmos.Expand: on an image without rows it gives no galaxies, where `expand_galaxy` raises AxisError at 11/11.py:23; `Cosmos.ComputeDistances`, the only operation that calls it, returns that AxisError itself.
- Cosmos: `part_one` and `part_two` only call `compute_distances` with the factors 2 and 1000000, which `Cosmos.ComputeDistances` takes as a parameter.
- Almanac: the dictionary of maps keyed by (source, destination) is a Dafny `map`, and the fixed chain of seven lookups is the list `Steps()`.
- Ranges: the `Range` class that 05/05b-better-2.py defines is modelled once, in the module Ranges, and shared by the other day-5 modules.
- AlmanacReverse.LeastLocationMeaning: that the answer is the least location holds only when every map is one-to-one; the search's result is proved to be the location of a seed under that hypothesis, as the source assumes when it inverts the maps.
- AlmanacRanges.PartTwoMeaning: the answer is attained by a seed only when every seed range has positive length; with a zero-length range it is proved to be a lower bound only.
- The progress prints every 1000 candidate locations in 05/05b-better.py are not modelled.
- CamelCards.WinningsSpec: the result does not depend on the order of the input hands only when no two different hands tie; with ties the order of `sorted` (a stable sort) decides; the model's insertion sort places equal keys in input order too, but its stability is not proved.
- CamelCards.Winnings: a card without a rank raises KeyError only when at least two hands are compared, as in the source, where a single hand is never compared.
- Wasteland.PartTwoMeaning: that every ghost stands on an end node at the printed step count needs the hypothesis that each ghost comes back to its end node after the same number of steps again, which the puzzle input satisfies but the source does not check.
- Wasteland.PartTwo: the list of node names is the dictionary's keys in insertion order, so the model requires the names and the map's keys to be the same.
- Cubes: the sum of the powers in `part_two` (02/02.py:86-89) is a plain sum over games and has no member of its own; `Cubes.Power` states what is summed.
- Schematic: part one's sum is the function `PartNumberSum`, with its properties stated by lemmas, rather than a method of its own.
- Springs.CountCombinationsCorrect: a group size of 0 is not a run of working springs, so the theorem that `test_combinations` counts arrangements requires positive groups; `TestCombinations` itself follows the source on every input.
- SpringsMemo.Memo: the cache key is the pair of chunk list and group list itself rather than a tuple of tuples; the `copy` that starts each count with an empty cache is a fresh `Memo`.
- Mirrors: the order of `Counter.items()` (insertion order) is a parameter `order` of `FindSmudge` and `ScoreForSmudgedBlock`, and `set.pop` takes any element; part one's and part two's sums over blocks are plain sums and have no member of their own.
- Dish: a platform without rows is a one-dimensional array, so `rocks.shape[1]` raises IndexError (14/14.py:26); one whose rows are all empty reaches `numpy.c_` with no columns and raises ValueError (14/14.py:44); a ragged one cannot be made an array; the model requires at least one row and one column and does not model these errors. The `rocks_str` key of `seen` is the grid itself; the one billion cycles of part two are the parameter `totalIterations`.

## Findings

| source | as written | input that shows it | evidently intended | confidence | as-written member | corrected member |
|---|---|---|---|---|---|---|
| 03/03.py:73 | `while chars.peek() in string.digits` keeps taking characters while the peeked one is a digit | a schematic whose text ends with a digit, such as "1": at the end of the stream `peek()` returns the empty string, and `'' in string.digits` is True, so the loop never ends | stop the number at the end of the stream | not executed | Schematic.AsWrittenNeverStops | Schematic.ReadDigits |
