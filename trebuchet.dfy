/**
 * Trebuchet calibration, first part (01/01a.py): the calibration value of a
 * line is the two-digit number formed by its first and its last digit
 * character; a line without digits has no value (indexing an empty list).
 */
module Trebuchet {

  import opened Failures

  predicate IsDigit(c: char)
  {
    '0' <= c <= '9'
  }

  function DigitValue(c: char): (v: nat)
    requires IsDigit(c)
    ensures v <= 9
  {
    c as int - '0' as int
  }

  /** The digit characters of a line, in order. */
  function Digits(line: string): (ds: seq<char>)
    ensures forall k | 0 <= k < |ds| :: IsDigit(ds[k])
  {
    if line == [] then []
    else (if IsDigit(line[0]) then [line[0]] else []) + Digits(line[1..])
  }

  /** line_number: first digit times ten plus last digit. */
  function LineNumber(line: string): Outcome<nat>
  {
    var ds := Digits(line);
    if |ds| == 0 then Failure(IndexError)
    else Success(10 * DigitValue(ds[0]) + DigitValue(ds[|ds| - 1]))
  }

  /** Position i holds the first digit of the line. */
  predicate FirstDigitAt(line: string, i: int)
  {
    0 <= i < |line| && IsDigit(line[i]) && forall k | 0 <= k < i :: !IsDigit(line[k])
  }

  /** Position j holds the last digit of the line. */
  predicate LastDigitAt(line: string, j: int)
  {
    0 <= j < |line| && IsDigit(line[j]) && forall k | j < k < |line| :: !IsDigit(line[k])
  }

  lemma {:induction false} DigitsEmpty(line: string)
    ensures Digits(line) == [] <==> forall k | 0 <= k < |line| :: !IsDigit(line[k])
  {
    if line != [] {
      DigitsEmpty(line[1..]);
      if forall k | 0 <= k < |line[1..]| :: !IsDigit(line[1..][k]) {
        forall k | 0 <= k < |line| ensures !IsDigit(line[k]) || k == 0 {
          if k > 0 { assert line[k] == line[1..][k - 1]; }
        }
      }
    }
  }

  lemma {:induction false} DigitsFirst(line: string, i: int)
    requires FirstDigitAt(line, i)
    ensures |Digits(line)| > 0 && Digits(line)[0] == line[i]
    decreases i
  {
    if i > 0 {
      assert !IsDigit(line[0]);
      assert FirstDigitAt(line[1..], i - 1);
      DigitsFirst(line[1..], i - 1);
    }
  }

  lemma {:induction false} DigitsLast(line: string, j: int)
    requires LastDigitAt(line, j)
    ensures |Digits(line)| > 0 && Digits(line)[|Digits(line)| - 1] == line[j]
    decreases j
  {
    var rest := line[1..];
    if j == 0 {
      DigitsEmpty(rest);
      assert forall k | 0 <= k < |rest| :: !IsDigit(rest[k]) by {
        forall k | 0 <= k < |rest| ensures !IsDigit(rest[k]) { assert rest[k] == line[k + 1]; }
      }
    } else {
      assert LastDigitAt(rest, j - 1) by {
        forall k | j - 1 < k < |rest| ensures !IsDigit(rest[k]) { assert rest[k] == line[k + 1]; }
      }
      DigitsLast(rest, j - 1);
    }
  }

  /**
   * The line has a value exactly when it holds a digit, and the value is ten
   * times its first digit plus its last digit, at most 99.
   */
  lemma {:induction false} LineNumberSpec(line: string)
    ensures LineNumber(line).Failure? <==> forall k | 0 <= k < |line| :: !IsDigit(line[k])
    ensures LineNumber(line).Failure? ==> LineNumber(line).error == IndexError
    ensures forall i, j | FirstDigitAt(line, i) && LastDigitAt(line, j) ::
      LineNumber(line) == Success(10 * DigitValue(line[i]) + DigitValue(line[j]))
    ensures LineNumber(line).Success? ==> LineNumber(line).value <= 99
  {
    DigitsEmpty(line);
    forall i, j | FirstDigitAt(line, i) && LastDigitAt(line, j)
      ensures LineNumber(line) == Success(10 * DigitValue(line[i]) + DigitValue(line[j]))
    {
      DigitsFirst(line, i);
      DigitsLast(line, j);
    }
  }
}
