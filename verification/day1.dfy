/** Trebuchet calibration: the value of a line is ten times its first digit
    plus its last digit.  Part 1 counts only ASCII digits; part 2 also
    counts the spelled words "zero" to "nine", which may overlap. */
module Day1 {
  import opened Common
  import opened CText

  const DigitLiterals: seq<string> := ["zero", "one", "two", "three", "four", "five", "six", "seven", "eight", "nine"]
  const DigitLiteralLengths: seq<nat> := [4, 3, 3, 5, 4, 4, 3, 5, 5, 4]

  /** The length table agrees with the words it describes. */
  lemma LiteralLengthsAgree()
    ensures |DigitLiterals| == |DigitLiteralLengths| == 10
    ensures forall k :: 0 <= k < 10 ==> |DigitLiterals[k]| == DigitLiteralLengths[k]
    ensures forall k :: 0 <= k < 10 ==> forall j :: 0 <= j < |DigitLiterals[k]| ==> IsLower(DigitLiterals[k][j])
  {
  }

  /** Compares the first `n` characters from index `i` on; a mismatch with
      the terminator of `b` stops the scan before it would read past it. */
  function StringCompareFrom(n: nat, a: string, b: string, i: nat): (r: bool)
    requires i <= n <= |a|
    requires forall k :: 0 <= k < n ==> a[k] != '\0'
    requires i <= |b|
    decreases n - i
  {
    if i == n then true
    else if a[i] != At(b, i) then false
    else StringCompareFrom(n, a, b, i + 1)
  }

  function StringCompare(n: nat, a: string, b: string): bool
    requires n <= |a|
    requires forall k :: 0 <= k < n ==> a[k] != '\0'
  {
    StringCompareFrom(n, a, b, 0)
  }

  /** The comparison holds exactly when `b` starts with the first `n`
      characters of `a`. */
  lemma {:induction false} StringCompareFromIsPrefix(n: nat, a: string, b: string, i: nat)
    requires i <= n <= |a|
    requires forall k :: 0 <= k < n ==> a[k] != '\0'
    requires i <= |b| && a[..i] == b[..i]
    ensures StringCompareFrom(n, a, b, i) <==> n <= |b| && a[..n] == b[..n]
    decreases n - i
  {
    if i < n {
      if a[i] == At(b, i) {
        assert i < |b|;
        assert a[..i + 1] == a[..i] + [a[i]] && b[..i + 1] == b[..i] + [b[i]];
        StringCompareFromIsPrefix(n, a, b, i + 1);
      } else if n <= |b| {
        assert a[..n][i] != b[..n][i];
      }
    }
  }

  lemma StringCompareIsPrefix(n: nat, a: string, b: string)
    requires n <= |a|
    requires forall k :: 0 <= k < n ==> a[k] != '\0'
    ensures StringCompare(n, a, b) <==> n <= |b| && a[..n] == b[..n]
  {
    StringCompareFromIsPrefix(n, a, b, 0);
  }

  /** Whether the spelled word of digit `k` starts at index `i`. */
  predicate SpelledAt(s: string, i: nat, k: nat)
    requires i <= |s| && k < 10
  {
    var w := DigitLiterals[k];
    i + |w| <= |s| && s[i..i + |w|] == w
  }

  /** Comparing the word of digit `k` against the text at `i` succeeds
      exactly when that word is spelled there. */
  lemma CompareLiteralAt(s: string, i: nat, k: nat)
    requires i <= |s| && k < 10
    ensures StringCompare(DigitLiteralLengths[k], DigitLiterals[k], s[i..]) <==> SpelledAt(s, i, k)
  {
    LiteralLengthsAgree();
    StringCompareIsPrefix(DigitLiteralLengths[k], DigitLiterals[k], s[i..]);
    if i + |DigitLiterals[k]| <= |s| {
      assert s[i..][..|DigitLiterals[k]|] == s[i..i + |DigitLiterals[k]|];
    }
  }

  /** The first of the words `k`..9 whose text starts at index `i`. */
  function MatchLiteral(s: string, i: nat, k: nat): (r: Option<nat>)
    requires i <= |s| && k <= 10
    ensures r.Some? ==> k <= r.value < 10 && SpelledAt(s, i, r.value)
    ensures r.None? <==> forall j :: k <= j < 10 ==> !SpelledAt(s, i, j)
    decreases 10 - k
  {
    if k == 10 then None
    else if StringCompare(DigitLiteralLengths[k], DigitLiterals[k], s[i..]) then
      CompareLiteralAt(s, i, k);
      Some(k)
    else
      CompareLiteralAt(s, i, k);
      MatchLiteral(s, i, k + 1)
  }

  /** The digit that starts at index `i`: an ASCII digit, or with literals
      allowed the first spelled word found there. */
  function TryParseDigit(s: string, i: nat, allowLiterals: bool): (r: Option<nat>)
    requires i < |s|
    ensures r.Some? ==> r.value <= 9
    ensures IsDigit(s[i]) ==> r == Some(DigitValue(s[i]))
    ensures !IsDigit(s[i]) && !allowLiterals ==> r.None?
    ensures !IsDigit(s[i]) && allowLiterals ==>
              (r.Some? <==> exists k :: 0 <= k < 10 && SpelledAt(s, i, k))
              && (r.Some? ==> SpelledAt(s, i, r.value))
  {
    if IsDigit(s[i]) then Some(DigitValue(s[i]))
    else if !allowLiterals then None
    else MatchLiteral(s, i, 0)
  }

  /** A spelled word starts with a lower-case letter, so no index reads both
      an ASCII digit and a word: the spelled words only add digits. */
  lemma LiteralsOnlyAdd(s: string, i: nat)
    requires i < |s|
    ensures TryParseDigit(s, i, false).Some? ==> TryParseDigit(s, i, true) == TryParseDigit(s, i, false)
  {
  }

  /** The end of the C string: its length, or an embedded terminator. */
  function End(s: string): (r: nat)
    ensures r <= |s| && At(s, r) == '\0'
    ensures forall k :: 0 <= k < r ==> s[k] != '\0'
  {
    EndFrom(s, 0)
  }

  function EndFrom(s: string, i: nat): (r: nat)
    requires i <= |s|
    ensures i <= r <= |s| && At(s, r) == '\0'
    ensures forall k :: i <= k < r ==> s[k] != '\0'
    decreases |s| - i
  {
    if At(s, i) == '\0' then i else EndFrom(s, i + 1)
  }

  /** Reference reading of the first digit: the lowest index from `i` on
      where a digit parses. */
  function FirstDigit(s: string, allowLiterals: bool, i: nat): (r: Option<nat>)
    requires i <= End(s)
    ensures r.None? <==> forall k :: i <= k < End(s) ==> TryParseDigit(s, k, allowLiterals).None?
    ensures r.Some? ==> r.value <= 9
    decreases End(s) - i
  {
    if i == End(s) then None
    else if TryParseDigit(s, i, allowLiterals).Some? then TryParseDigit(s, i, allowLiterals)
    else FirstDigit(s, allowLiterals, i + 1)
  }

  /** Reference reading of the last digit: the highest index below `j`
      where a digit parses. */
  function LastDigit(s: string, allowLiterals: bool, j: nat): (r: Option<nat>)
    requires j <= End(s)
    ensures r.None? <==> forall k :: 0 <= k < j ==> TryParseDigit(s, k, allowLiterals).None?
    ensures r.Some? ==> r.value <= 9
  {
    if j == 0 then None
    else if TryParseDigit(s, j - 1, allowLiterals).Some? then TryParseDigit(s, j - 1, allowLiterals)
    else LastDigit(s, allowLiterals, j - 1)
  }

  /** The first digit is read at the lowest index where one parses. */
  lemma {:induction false} FirstDigitIsLowest(s: string, allowLiterals: bool, i: nat)
    requires i <= End(s)
    ensures FirstDigit(s, allowLiterals, i).Some? ==>
              exists p :: i <= p < End(s) && TryParseDigit(s, p, allowLiterals) == FirstDigit(s, allowLiterals, i)
                && forall k :: i <= k < p ==> TryParseDigit(s, k, allowLiterals).None?
    decreases End(s) - i
  {
    if i < End(s) && TryParseDigit(s, i, allowLiterals).None? {
      FirstDigitIsLowest(s, allowLiterals, i + 1);
    }
  }

  /** The last digit is read at the highest index below `j` where one
      parses. */
  lemma {:induction false} LastDigitIsHighest(s: string, allowLiterals: bool, j: nat)
    requires j <= End(s)
    ensures LastDigit(s, allowLiterals, j).Some? ==>
              exists p :: 0 <= p < j && TryParseDigit(s, p, allowLiterals) == LastDigit(s, allowLiterals, j)
                && forall k :: p < k < j ==> TryParseDigit(s, k, allowLiterals).None?
  {
    if j > 0 && TryParseDigit(s, j - 1, allowLiterals).None? {
      LastDigitIsHighest(s, allowLiterals, j - 1);
    }
  }

  /** The scan of the original: every index up to the terminator is tried,
      the first hit sets both digits and every later one the last digit.
      `None` stands for the original's nonzero "no digit found". */
  method FindFirstLastDigit(s: string, allowLiterals: bool) returns (r: Option<(nat, nat)>)
    ensures r.None? <==> FirstDigit(s, allowLiterals, 0).None?
    ensures r.Some? ==> r.value.0 == FirstDigit(s, allowLiterals, 0).value
    ensures r.Some? ==> r.value.1 == LastDigit(s, allowLiterals, End(s)).value
  {
    var first, last := 0, 0;
    var noDigitYetFound := true;
    var i := 0;
    while At(s, i) != '\0'
      invariant i <= End(s)
      invariant noDigitYetFound <==> LastDigit(s, allowLiterals, i).None?
      invariant noDigitYetFound ==> FirstDigit(s, allowLiterals, 0) == FirstDigit(s, allowLiterals, i)
      invariant !noDigitYetFound ==> Some(first) == FirstDigit(s, allowLiterals, 0)
      invariant !noDigitYetFound ==> Some(last) == LastDigit(s, allowLiterals, i)
      decreases End(s) - i
    {
      assert i < End(s);
      var current := TryParseDigit(s, i, allowLiterals);
      if current.Some? {
        if noDigitYetFound {
          first := current.value;
        }
        last := current.value;
        noDigitYetFound := false;
      }
      i := i + 1;
    }
    assert i == End(s);
    if noDigitYetFound {
      return None;
    }
    return Some((first, last));
  }

  function EvalCalibrationValue(first: nat, last: nat): nat
  {
    first * 10 + last
  }

  /** For two digits the calibration value is a two-digit number whose tens
      and units give the digits back. */
  lemma CalibrationDigits(first: nat, last: nat)
    requires first <= 9 && last <= 9
    ensures EvalCalibrationValue(first, last) <= 99
    ensures EvalCalibrationValue(first, last) / 10 == first
    ensures EvalCalibrationValue(first, last) % 10 == last
  {
  }

  /** The calibration value of a line, or the original's failure when no
      digit is found. */
  function LineValue(s: string, allowLiterals: bool): (r: Result<nat>)
    ensures r.Ok? ==> r.value <= 99
    ensures r.Err? <==> FirstDigit(s, allowLiterals, 0).None?
  {
    match FirstDigit(s, allowLiterals, 0)
    case None => Err("no digits found in line")
    case Some(first) =>
      var last := LastDigit(s, allowLiterals, End(s));
      assert last.Some?;
      Ok(EvalCalibrationValue(first, last.value))
  }

  /** A line that has an ASCII digit also has a digit with literals. */
  lemma LiteralLineHasDigit(s: string)
    ensures LineValue(s, false).Ok? ==> LineValue(s, true).Ok?
  {
    if FirstDigit(s, false, 0).Some? {
      var p :| 0 <= p < End(s) && TryParseDigit(s, p, false).Some?;
      LiteralsOnlyAdd(s, p);
    }
  }

  /** Both parts over the lines; a line without an ASCII digit aborts. */
  function Solve(lines: seq<string>): (r: Result<(nat, nat)>)
  {
    if |lines| == 0 then Ok((0, 0))
    else
      match Solve(lines[..|lines| - 1])
      case Err(e) => Err(e)
      case Ok((p1, p2)) =>
        var line := lines[|lines| - 1];
        match LineValue(line, false)
        case Err(e) => Err(e)
        case Ok(v1) =>
          match LineValue(line, true)
          case Err(e) => Err(e)
          case Ok(v2) => Ok((p1 + v1, p2 + v2))
  }

  /** The answer fails exactly when some line has no ASCII digit, and each
      part is at most 99 per line. */
  lemma {:induction false} SolveFailsOnDigitlessLine(lines: seq<string>)
    ensures Solve(lines).Err? <==> exists k :: 0 <= k < |lines| && LineValue(lines[k], false).Err?
    ensures Solve(lines).Ok? ==> Solve(lines).value.0 <= 99 * |lines| && Solve(lines).value.1 <= 99 * |lines|
  {
    if |lines| > 0 {
      var init := lines[..|lines| - 1];
      SolveFailsOnDigitlessLine(init);
      LiteralLineHasDigit(lines[|lines| - 1]);
      if exists k :: 0 <= k < |init| && LineValue(init[k], false).Err? {
        var k :| 0 <= k < |init| && LineValue(init[k], false).Err?;
        assert lines[k] == init[k];
      }
      if exists k :: 0 <= k < |lines| && LineValue(lines[k], false).Err? {
        var k :| 0 <= k < |lines| && LineValue(lines[k], false).Err?;
        if k < |init| {
          assert init[k] == lines[k];
        }
      }
    }
  }

  /** No word fits in fewer than three characters. */
  lemma NoWordInShortTail(s: string, i: nat)
    requires i < |s| && |s| - i < 3 && !IsDigit(s[i])
    ensures TryParseDigit(s, i, true).None?
  {
    LiteralLengthsAgree();
    assert forall k :: 0 <= k < 10 ==> |DigitLiterals[k]| >= 3;
  }

  /** A word cannot start where its first letter does not stand. */
  lemma FirstLetterDiffers(s: string, i: nat, k: nat)
    requires i < |s| && k < 10 && s[i] != DigitLiterals[k][0]
    ensures !SpelledAt(s, i, k)
  {
    LiteralLengthsAgree();
    var w := DigitLiterals[k];
    if i + |w| <= |s| {
      assert s[i..i + |w|][0] == s[i];
    }
  }

  lemma EightAtZero()
    ensures TryParseDigit("eightwo", 0, true) == Some(8)
  {
    var s := "eightwo";
    forall k | 0 <= k < 10 && k != 8
      ensures !SpelledAt(s, 0, k)
    {
      FirstLetterDiffers(s, 0, k);
    }
    assert s[0..5] == "eight";
    assert SpelledAt(s, 0, 8);
  }

  lemma TwoAtFour()
    ensures TryParseDigit("eightwo", 4, true) == Some(2)
  {
    var s := "eightwo";
    forall k | 0 <= k < 10 && k != 2 && k != 3
      ensures !SpelledAt(s, 4, k)
    {
      FirstLetterDiffers(s, 4, k);
    }
    assert !SpelledAt(s, 4, 3);
    assert s[4..7] == "two";
    assert SpelledAt(s, 4, 2);
  }

  /** Overlapping words both count: "eightwo" reads 8 first and 2 last. */
  lemma OverlappingWordsBothCount()
    ensures LineValue("eightwo", true) == Ok(82)
  {
    var s := "eightwo";
    assert End(s) == 7 by {
      assert EndFrom(s, 7) == 7;
    }
    EightAtZero();
    TwoAtFour();
    NoWordInShortTail(s, 5);
    NoWordInShortTail(s, 6);
    assert LastDigit(s, true, 7) == Some(2);
  }
}
