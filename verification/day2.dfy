/** Cube conundrum: each line "Game <id>: <draw>; <draw>; ..." lists draws
    of coloured cubes, "<amount> <colour>" separated by commas.  A game is
    possible with 12 red, 13 green and 14 blue cubes (part 1); the power of
    the minimal cube set is summed in part 2.  The scanning follows the C
    pointer walks, including where they would read past the line. */
module Day2 {
  import opened Common
  import opened CText

  const NumberRedCubes: nat := 12
  const NumberGreenCubes: nat := 13
  const NumberBlueCubes: nat := 14

  datatype Draw = Draw(red: nat, green: nat, blue: nat)

  /** The index of the ':' that ends the game header, searched from index 5
      (just after "Game "), with the game id `atoi` reads at index 5.  The
      original runs off the line when there is no colon. */
  function ParseGameId(line: string): (r: Result<(nat, nat)>)
    ensures r.Ok? ==> 5 <= r.value.1 < |line| && line[r.value.1] == ':'
    ensures r.Ok? ==> forall k :: 5 <= k < r.value.1 ==> line[k] != ':'
    ensures r.Ok? ==> r.value.0 == Atoi(line, 5)
    ensures r.Err? <==> forall k :: 5 <= k < |line| ==> line[k] != ':'
  {
    match FindColon(line, 5)
    case None => Err("no colon after the game id")
    case Some(colon) => Ok((Atoi(line, 5), colon))
  }

  function FindColon(line: string, i: nat): (r: Option<nat>)
    ensures r.Some? ==> i <= r.value < |line| && line[r.value] == ':'
    ensures r.Some? ==> forall k :: i <= k < r.value ==> line[k] != ':'
    ensures r.None? <==> forall k :: i <= k < |line| ==> line[k] != ':'
    decreases |line| - i
  {
    if i >= |line| then None
    else if line[i] == ':' then Some(i)
    else FindColon(line, i + 1)
  }

  /** Whether a digit occurs at or after `i`. */
  function AreDrawsLeft(line: string, i: nat): (r: bool)
    requires i <= |line|
    ensures r <==> exists k :: i <= k < |line| && IsDigit(line[k])
    decreases |line| - i
  {
    if i == |line| then false
    else if IsDigit(line[i]) then true
    else AreDrawsLeft(line, i + 1)
  }

  /** The first digit strictly after `i`; reaching the terminator without
      one runs off the line. */
  function NextDigit(s: string, i: nat): (r: Result<nat>)
    ensures r.Ok? ==> i < r.value < |s|
    decreases |s| - i
  {
    if i + 1 >= |s| then Err("no digit before the end of the line")
    else if IsDigit(s[i + 1]) then Ok(i + 1)
    else NextDigit(s, i + 1)
  }

  /** `NextDigit` finds the first digit after `i`, and fails exactly when
      there is none before the terminator. */
  lemma {:induction false} NextDigitFindsFirst(s: string, i: nat)
    ensures var r := NextDigit(s, i);
            && (r.Ok? ==> IsDigit(s[r.value]) && forall k :: i < k < r.value ==> !IsDigit(s[k]))
            && (r.Err? <==> forall k :: i < k < |s| ==> !IsDigit(s[k]))
    decreases |s| - i
  {
    if i + 1 < |s| && !IsDigit(s[i + 1]) {
      NextDigitFindsFirst(s, i + 1);
    }
  }

  /** The first lower-case letter strictly after `i`. */
  function NextLower(s: string, i: nat): (r: Result<nat>)
    ensures r.Ok? ==> i < r.value < |s|
    decreases |s| - i
  {
    if i + 1 >= |s| then Err("no colour before the end of the line")
    else if IsLower(s[i + 1]) then Ok(i + 1)
    else NextLower(s, i + 1)
  }

  /** `NextLower` finds the first lower-case letter after `i`, and fails
      exactly when there is none before the terminator. */
  lemma {:induction false} NextLowerFindsFirst(s: string, i: nat)
    ensures var r := NextLower(s, i);
            && (r.Ok? ==> IsLower(s[r.value]) && forall k :: i < k < r.value ==> !IsLower(s[k]))
            && (r.Err? <==> forall k :: i < k < |s| ==> !IsLower(s[k]))
    decreases |s| - i
  {
    if i + 1 < |s| && !IsLower(s[i + 1]) {
      NextLowerFindsFirst(s, i + 1);
    }
  }

  /** The first index after `i` that holds no lower-case letter; the
      terminator stops the scan at the latest. */
  function SkipLower(s: string, i: nat): (r: nat)
    requires i < |s|
    ensures i < r <= |s|
    decreases |s| - i
  {
    if i + 1 < |s| && IsLower(s[i + 1]) then SkipLower(s, i + 1) else i + 1
  }

  /** `SkipLower` stops at the first index after `i` without a lower-case
      letter. */
  lemma {:induction false} SkipLowerStopsFirst(s: string, i: nat)
    requires i < |s|
    ensures var r := SkipLower(s, i);
            && (forall k :: i < k < r ==> IsLower(s[k]))
            && (r == |s| || !IsLower(s[r]))
    decreases |s| - i
  {
    if i + 1 < |s| && IsLower(s[i + 1]) {
      SkipLowerStopsFirst(s, i + 1);
    }
  }

  predicate IsColourLetter(c: char)
  {
    c == 'r' || c == 'g' || c == 'b'
  }

  /** The draw with one colour set to `amount`; a colour letter other than
      'r', 'g' and 'b' is the original's fatal "unknown colour". */
  function SetColour(d: Draw, colour: char, amount: nat): (r: Result<Draw>)
    ensures r.Err? <==> !IsColourLetter(colour)
  {
    match colour
    case 'r' => Ok(d.(red := amount))
    case 'g' => Ok(d.(green := amount))
    case 'b' => Ok(d.(blue := amount))
    case _ => Err("unknown colour")
  }

  /** One "<amount> <colour>" entry read after index `i`: the amount is the
      digit run at the next digit, the colour the next lower-case letter, and
      the scan stops after the colour word. */
  function DrawStep(s: string, i: nat, d: Draw): (r: Result<(Draw, nat)>)
    requires i < |s|
    ensures r.Ok? ==> i < r.value.1 <= |s|
  {
    match NextDigit(s, i)
    case Err(e) => Err(e)
    case Ok(j) =>
      var amount := Atoi(s, j);
      match NextLower(s, j)
      case Err(e) => Err(e)
      case Ok(k) =>
        match SetColour(d, s[k], amount)
        case Err(e) => Err(e)
        case Ok(d') => Ok((d', SkipLower(s, k)))
  }

  predicate IsDrawEnd(c: char)
  {
    c == ';' || c == '\n' || c == '\0'
  }

  /** Reads entries until a ';', a newline or the terminator. */
  function DrawLoop(s: string, i: nat, d: Draw): (r: Result<(Draw, nat)>)
    requires i <= |s|
    ensures r.Ok? ==> i <= r.value.1 <= |s| && IsDrawEnd(At(s, r.value.1))
    decreases |s| - i
  {
    if IsDrawEnd(At(s, i)) then Ok((d, i))
    else
      match DrawStep(s, i, d)
      case Err(e) => Err(e)
      case Ok((d', e)) => DrawLoop(s, e, d')
  }

  /** One draw, starting just after the delimiter at `index`: every colour
      starts at 0 and is set by the entries that name it; the new index is
      the delimiter that ends the draw. */
  function GetDrawAmounts(s: string, index: nat): (r: Result<(Draw, nat)>)
    requires index <= |s|
    ensures r.Ok? ==> index < r.value.1 <= |s| && IsDrawEnd(At(s, r.value.1))
  {
    if index + 1 > |s| then Err("draw starts past the end of the line")
    else DrawLoop(s, index + 1, Draw(0, 0, 0))
  }

  /** `j` is the first digit strictly after `i`. */
  predicate FirstDigitAfter(s: string, i: nat, j: nat)
  {
    i < j < |s| && IsDigit(s[j]) && forall t :: i < t < j ==> !IsDigit(s[t])
  }

  /** `k` is the first lower-case letter strictly after `j`. */
  predicate FirstLowerAfter(s: string, j: nat, k: nat)
  {
    j < k < |s| && IsLower(s[k]) && forall t :: j < t < k ==> !IsLower(s[t])
  }

  lemma FirstDigitUnique(s: string, i: nat, j: nat, j': nat)
    requires FirstDigitAfter(s, i, j) && FirstDigitAfter(s, i, j')
    ensures j == j'
  {
  }

  lemma FirstLowerUnique(s: string, j: nat, k: nat, k': nat)
    requires FirstLowerAfter(s, j, k) && FirstLowerAfter(s, j, k')
    ensures k == k'
  {
  }

  /** An entry reads the amount at the first digit after `i` and sets the
      colour named by the first lower-case letter after that digit; it fails
      exactly when a scan runs off the line or that letter is not 'r', 'g'
      or 'b'. */
  lemma DrawStepReads(s: string, i: nat, d: Draw)
    requires i < |s|
    ensures DrawStep(s, i, d).Ok? <==>
              exists j: nat, k: nat :: FirstDigitAfter(s, i, j) && FirstLowerAfter(s, j, k) && IsColourLetter(s[k])
    ensures forall j: nat, k: nat :: FirstDigitAfter(s, i, j) && FirstLowerAfter(s, j, k) && IsColourLetter(s[k]) ==>
              DrawStep(s, i, d) == Ok((SetColour(d, s[k], Atoi(s, j)).value, SkipLower(s, k)))
  {
    NextDigitFindsFirst(s, i);
    if NextDigit(s, i).Ok? {
      var j := NextDigit(s, i).value;
      assert FirstDigitAfter(s, i, j);
      forall j': nat | FirstDigitAfter(s, i, j') ensures j' == j {
        FirstDigitUnique(s, i, j, j');
      }
      NextLowerFindsFirst(s, j);
      if NextLower(s, j).Ok? {
        var k := NextLower(s, j).value;
        assert FirstLowerAfter(s, j, k);
        forall k': nat | FirstLowerAfter(s, j, k') ensures k' == k {
          FirstLowerUnique(s, j, k, k');
        }
      } else {
        assert forall k: nat :: !FirstLowerAfter(s, j, k);
      }
    } else {
      assert forall j: nat :: !FirstDigitAfter(s, i, j);
    }
  }

  /** The three colours a draw names. */
  datatype Colour = Red | Green | Blue

  /** One "<amount> <colour>" entry of a draw. */
  datatype Entry = Entry(amount: nat, colour: Colour)

  function ColourName(c: Colour): (r: string)
    ensures |r| > 0 && IsColourLetter(r[0]) && forall k :: 0 <= k < |r| ==> IsLower(r[k])
  {
    match c
    case Red => "red"
    case Green => "green"
    case Blue => "blue"
  }

  function EntryText(e: Entry): string
  {
    FormatNat(e.amount) + " " + ColourName(e.colour)
  }

  /** Entries separated by ", ", as a draw lists them. */
  function JoinEntries(es: seq<Entry>): string
    requires |es| > 0
    decreases |es|
  {
    if |es| == 1 then EntryText(es[0]) else EntryText(es[0]) + ", " + JoinEntries(es[1..])
  }

  /** The draw after one entry: the entry's colour holds its amount. */
  function WithEntry(d: Draw, e: Entry): Draw
  {
    match e.colour
    case Red => d.(red := e.amount)
    case Green => d.(green := e.amount)
    case Blue => d.(blue := e.amount)
  }

  function ApplyEntries(d: Draw, es: seq<Entry>): Draw
    decreases |es|
  {
    if |es| == 0 then d else ApplyEntries(WithEntry(d, es[0]), es[1..])
  }

  /** The run of lower-case letters from `k` ends at `m`. */
  lemma SkipLowerAt(s: string, k: nat, m: nat)
    requires k < m <= |s|
    requires forall t :: k < t < m ==> IsLower(s[t])
    requires m == |s| || !IsLower(s[m])
    ensures SkipLower(s, k) == m
  {
    SkipLowerStopsFirst(s, k);
  }

  /** An entry whose amount, colour letter and end are known is read as
      the entry. */
  lemma EntryStepAt(s: string, i: nat, j: nat, k: nat, m: nat, d: Draw, e: Entry)
    requires FirstDigitAfter(s, i, j) && FirstLowerAfter(s, j, k)
    requires Atoi(s, j) == e.amount && s[k] == ColourName(e.colour)[0]
    requires SkipLower(s, k) == m
    ensures DrawStep(s, i, d) == Ok((WithEntry(d, e), m))
  {
    DrawStepReads(s, i, d);
  }

  /** The text `w` stands in `s` from index `j` on. */
  predicate WrittenAt(s: string, j: nat, w: string)
  {
    j + |w| <= |s| && forall t {:trigger w[t]} :: 0 <= t < |w| ==> s[j + t] == w[t]
  }

  lemma WrittenAtSplit(s: string, j: nat, a: string, b: string)
    requires WrittenAt(s, j, a + b)
    ensures WrittenAt(s, j, a) && WrittenAt(s, j + |a|, b)
  {
    forall t | 0 <= t < |a|
      ensures s[j + t] == a[t]
    {
      assert (a + b)[t] == a[t];
    }
    forall t | 0 <= t < |b|
      ensures s[j + |a| + t] == b[t]
    {
      assert (a + b)[|a| + t] == b[t];
    }
  }

  /** A run of digits written at `j` and followed by a non-digit is what
      `atoi` reads there. */
  lemma AtoiWritten(s: string, j: nat, num: string)
    requires AllDigits(num) && WrittenAt(s, j, num)
    requires j + |num| == |s| || !IsDigit(s[j + |num|])
    ensures Atoi(s, j) == DigitsValue(num)
  {
    forall t | j <= t < j + |num|
      ensures IsDigit(s[t])
    {
      assert s[j + (t - j)] == num[t - j];
    }
    DigitRunFrom(s, j, j + |num|);
    assert s[j..j + |num|] == num by {
      forall t | 0 <= t < |num|
        ensures s[j..j + |num|][t] == num[t]
      {
      }
    }
  }

  /** Where an entry written as the digits `num`, a space and the colour
      word `name` puts its amount, its colour letter and its end, as the
      scans of `DrawStep` find them. */
  lemma EntryFacts(s: string, i: nat, j: nat, num: string, name: string)
    requires |num| > 0 && AllDigits(num)
    requires |name| > 0 && forall t :: 0 <= t < |name| ==> IsLower(name[t])
    requires WrittenAt(s, j, num) && j + |num| < |s| && s[j + |num|] == ' '
    requires WrittenAt(s, j + |num| + 1, name)
    requires i < j && forall t :: i < t < j ==> !IsDigit(s[t])
    requires j + |num| + 1 + |name| == |s| || !IsLower(s[j + |num| + 1 + |name|])
    ensures var k := j + |num| + 1;
            && FirstDigitAfter(s, i, j) && FirstLowerAfter(s, j, k)
            && Atoi(s, j) == DigitsValue(num) && s[k] == name[0]
            && SkipLower(s, k) == k + |name|
  {
    var k := j + |num| + 1;
    AtoiWritten(s, j, num);
    assert s[j + 0] == num[0];
    assert s[k + 0] == name[0];
    forall t | j < t < k
      ensures !IsLower(s[t])
    {
      if t < j + |num| {
        assert s[j + (t - j)] == num[t - j];
      }
    }
    forall t | k < t < k + |name|
      ensures IsLower(s[t])
    {
      assert s[k + (t - k)] == name[t - k];
    }
    SkipLowerAt(s, k, k + |name|);
  }

  /** A written entry, after characters from `i + 1` on that are not
      digits, is read back, and the scan stops right after its colour. */
  lemma ReadEntry(s: string, i: nat, j: nat, e: Entry, d: Draw)
    requires WrittenAt(s, j, EntryText(e))
    requires i < j && forall t :: i < t < j ==> !IsDigit(s[t])
    requires j + |EntryText(e)| == |s| || !IsLower(s[j + |EntryText(e)|])
    ensures DrawStep(s, i, d) == Ok((WithEntry(d, e), j + |EntryText(e)|))
  {
    var num, name := FormatNat(e.amount), ColourName(e.colour);
    WrittenAtSplit(s, j, num + " ", name);
    WrittenAtSplit(s, j, num, " ");
    assert s[j + |num| + 0] == " "[0];
    EntryFacts(s, i, j, num, name);
    FormatNatValue(e.amount);
    EntryStepAt(s, i, j, j + |FormatNat(e.amount)| + 1, j + |EntryText(e)|, d, e);
  }

  /** Joined entries are the first entry, ", " and the joined rest. */
  lemma SplitJoined(s: string, j: nat, es: seq<Entry>, m: nat)
    requires |es| > 1 && WrittenAt(s, j, JoinEntries(es)) && m == j + |EntryText(es[0])|
    ensures WrittenAt(s, j, EntryText(es[0]))
    ensures m + 1 < |s| && s[m] == ',' && s[m + 1] == ' '
    ensures WrittenAt(s, m + 2, JoinEntries(es[1..]))
    ensures m + 2 + |JoinEntries(es[1..])| == j + |JoinEntries(es)|
  {
    var first, rest := EntryText(es[0]), JoinEntries(es[1..]);
    assert JoinEntries(es) == first + ", " + rest;
    WrittenAtSplit(s, j, first + ", ", rest);
    WrittenAtSplit(s, j, first, ", ");
    assert s[m + 0] == ", "[0];
    assert s[m + 1] == ", "[1];
  }

  /** A step that reads an entry hands the rest of the draw to the loop. */
  lemma DrawLoopStep(s: string, i: nat, d: Draw, d': Draw, e: nat)
    requires i < |s| && !IsDrawEnd(s[i]) && DrawStep(s, i, d) == Ok((d', e))
    ensures DrawLoop(s, i, d) == DrawLoop(s, e, d')
  {
  }

  /** Entries written one after another from `j` on, separated by ", ",
      with the last one ending at `end`. */
  predicate EntriesAt(s: string, j: nat, es: seq<Entry>, end: nat)
    decreases |es|
  {
    && |es| > 0
    && WrittenAt(s, j, EntryText(es[0]))
    && var m := j + |EntryText(es[0])|;
       if |es| == 1 then end == m
       else m + 1 < |s| && s[m] == ',' && s[m + 1] == ' ' && EntriesAt(s, m + 2, es[1..], end)
  }

  /** The joined text of the entries lays them out one after another. */
  lemma {:induction false} JoinedEntriesAt(s: string, j: nat, es: seq<Entry>)
    requires |es| > 0 && WrittenAt(s, j, JoinEntries(es))
    ensures EntriesAt(s, j, es, j + |JoinEntries(es)|)
    decreases |es|
  {
    if |es| > 1 {
      SplitJoined(s, j, es, j + |EntryText(es[0])|);
      JoinedEntriesAt(s, j + |EntryText(es[0])| + 2, es[1..]);
    }
  }

  /** The loop reads a written entry and goes on right after its colour. */
  lemma LoopReadsEntry(s: string, i: nat, j: nat, e: Entry, d: Draw)
    requires WrittenAt(s, j, EntryText(e))
    requires i < j && !IsDrawEnd(s[i]) && forall t :: i < t < j ==> !IsDigit(s[t])
    requires j + |EntryText(e)| == |s| || !IsLower(s[j + |EntryText(e)|])
    ensures DrawLoop(s, i, d) == DrawLoop(s, j + |EntryText(e)|, WithEntry(d, e))
  {
    ReadEntry(s, i, j, e, d);
    DrawLoopStep(s, i, d, WithEntry(d, e), j + |EntryText(e)|);
  }

  /** Past the first of several laid-out entries come ", " and the rest. */
  lemma EntriesAtNext(s: string, j: nat, es: seq<Entry>, end: nat, m: nat)
    requires EntriesAt(s, j, es, end) && |es| > 1 && m == j + |EntryText(es[0])|
    ensures m + 1 < |s| && s[m] == ',' && s[m + 1] == ' '
    ensures EntriesAt(s, m + 2, es[1..], end)
  {
  }

  /** The first laid-out entry is written at `j`, and a draw's end or a
      comma follows it. */
  lemma EntriesAtFirst(s: string, j: nat, es: seq<Entry>, end: nat, m: nat)
    requires EntriesAt(s, j, es, end) && m == j + |EntryText(es[0])|
    requires end == |s| || (end < |s| && IsDrawEnd(s[end]))
    ensures WrittenAt(s, j, EntryText(es[0]))
    ensures |es| == 1 ==> end == m
    ensures m == |s| || !IsLower(s[m])
  {
  }

  /** The loop stops on a draw's end without changing the draw. */
  lemma LoopAtEnd(s: string, m: nat, d: Draw)
    requires m == |s| || (m < |s| && IsDrawEnd(s[m]))
    ensures DrawLoop(s, m, d) == Ok((d, m))
  {
  }

  lemma ApplyEntriesFirst(d: Draw, es: seq<Entry>)
    requires |es| > 0
    ensures ApplyEntries(d, es) == ApplyEntries(WithEntry(d, es[0]), es[1..])
    ensures |es| == 1 ==> ApplyEntries(d, es) == WithEntry(d, es[0])
  {
  }

  /** The loop reads the first laid-out entry, which ends at `m`, and goes
      on from there. */
  lemma LoopReadsFirst(s: string, i: nat, j: nat, es: seq<Entry>, end: nat, m: nat, d: Draw)
    requires EntriesAt(s, j, es, end) && m == j + |EntryText(es[0])|
    requires i < j && !IsDrawEnd(s[i]) && forall t :: i < t < j ==> !IsDigit(s[t])
    requires end == |s| || (end < |s| && IsDrawEnd(s[end]))
    ensures m <= |s| && DrawLoop(s, i, d) == DrawLoop(s, m, WithEntry(d, es[0]))
  {
    EntriesAtFirst(s, j, es, end, m);
    LoopReadsEntry(s, i, j, es[0], d);
  }

  /** Entries laid out from `j` on are read one by one up to the draw's
      end at `|s|` or at a ';' or newline, each setting its colour in turn. */
  lemma {:induction false} ReadEntries(s: string, i: nat, j: nat, es: seq<Entry>, end: nat, d: Draw)
    requires EntriesAt(s, j, es, end)
    requires i < j && !IsDrawEnd(s[i]) && forall t :: i < t < j ==> !IsDigit(s[t])
    requires end == |s| || (end < |s| && IsDrawEnd(s[end]))
    ensures DrawLoop(s, i, d) == Ok((ApplyEntries(d, es), end))
    decreases |es|, 1
  {
    var m := j + |EntryText(es[0])|;
    ReadRestEntries(s, j, es, end, m, d);
    LoopReadsFirst(s, i, j, es, end, m, d);
    ApplyEntriesFirst(d, es);
  }

  /** After the first laid-out entry, the loop reads the remaining ones. */
  lemma {:induction false} ReadRestEntries(s: string, j: nat, es: seq<Entry>, end: nat, m: nat, d: Draw)
    requires EntriesAt(s, j, es, end) && m == j + |EntryText(es[0])|
    requires end == |s| || (end < |s| && IsDrawEnd(s[end]))
    ensures m <= |s| && DrawLoop(s, m, WithEntry(d, es[0])) == Ok((ApplyEntries(WithEntry(d, es[0]), es[1..]), end))
    decreases |es|, 0
  {
    var d' := WithEntry(d, es[0]);
    if |es| == 1 {
      EntriesAtFirst(s, j, es, end, m);
      LoopAtEnd(s, m, d');
    } else {
      EntriesAtNext(s, j, es, end, m);
      ReadEntries(s, m, m + 2, es[1..], end, d');
    }
  }

  /** A draw laid out as a space and its entries after the delimiter at
      `index` is read from that delimiter on. */
  lemma ReadDraw(s: string, index: nat, es: seq<Entry>, end: nat)
    requires index + 1 < |s| && s[index + 1] == ' '
    requires EntriesAt(s, index + 2, es, end)
    requires end == |s| || (end < |s| && IsDrawEnd(s[end]))
    ensures GetDrawAmounts(s, index) == Ok((ApplyEntries(Draw(0, 0, 0), es), end))
  {
    ReadEntries(s, index + 1, index + 2, es, end, Draw(0, 0, 0));
  }

  /** Writing a draw's entries after a delimiter and reading them back:
      when the delimiter at `index` is followed by a space and the entries
      joined by ", ", up to the terminator or a ';' or newline, the draw
      read gives every colour 0 unless an entry names it, and then the
      amount of the last entry naming it; the scan stops on the delimiter
      after the draw. */
  lemma GetDrawAmountsRoundTrip(s: string, index: nat, es: seq<Entry>)
    requires |es| > 0
    requires index + 1 < |s| && s[index + 1] == ' '
    requires WrittenAt(s, index + 2, JoinEntries(es))
    requires var end := index + 2 + |JoinEntries(es)|;
             end == |s| || (end < |s| && IsDrawEnd(s[end]))
    ensures GetDrawAmounts(s, index) == Ok((ApplyEntries(Draw(0, 0, 0), es), index + 2 + |JoinEntries(es)|))
  {
    JoinedEntriesAt(s, index + 2, es);
    ReadDraw(s, index, es, index + 2 + |JoinEntries(es)|);
  }

  function Max(a: nat, b: nat): (r: nat)
    ensures r >= a && r >= b && (r == a || r == b)
  {
    if a > b then a else b
  }

  /** Possible with 12 red, 13 green and 14 blue cubes. */
  predicate IsValidDraw(d: Draw)
  {
    d.red <= NumberRedCubes && d.green <= NumberGreenCubes && d.blue <= NumberBlueCubes
  }

  function SetPower(d: Draw): nat
  {
    d.red * d.green * d.blue
  }

  function MaxDraw(a: Draw, b: Draw): Draw
  {
    Draw(Max(a.red, b.red), Max(a.green, b.green), Max(a.blue, b.blue))
  }

  /** The colour-wise running maxima of the draws from `i` on, starting from
      `m`: the loop of the original's main function. */
  function MinimaFrom(s: string, i: nat, m: Draw): Result<Draw>
    requires i <= |s|
    decreases |s| - i
  {
    if !AreDrawsLeft(s, i) then Ok(m)
    else
      match GetDrawAmounts(s, i)
      case Err(e) => Err(e)
      case Ok((d, e)) => MinimaFrom(s, e, MaxDraw(m, d))
  }

  /** The same draws, collected rather than folded. */
  function DrawsFrom(s: string, i: nat): Result<seq<Draw>>
    requires i <= |s|
    decreases |s| - i
  {
    if !AreDrawsLeft(s, i) then Ok([])
    else
      match GetDrawAmounts(s, i)
      case Err(e) => Err(e)
      case Ok((d, e)) =>
        match DrawsFrom(s, e)
        case Err(e) => Err(e)
        case Ok(ds) => Ok([d] + ds)
  }

  function FoldMax(m: Draw, ds: seq<Draw>): Draw
    decreases |ds|
  {
    if |ds| == 0 then m else FoldMax(MaxDraw(m, ds[0]), ds[1..])
  }

  /** The folded maxima dominate the start and every draw, and each colour
      is attained by the start or by some draw. */
  lemma {:induction false} FoldMaxIsLeastUpperBound(m: Draw, ds: seq<Draw>)
    ensures var r := FoldMax(m, ds);
            && r.red >= m.red && r.green >= m.green && r.blue >= m.blue
            && (forall k :: 0 <= k < |ds| ==>
                  r.red >= ds[k].red && r.green >= ds[k].green && r.blue >= ds[k].blue)
            && (r.red == m.red || exists k :: 0 <= k < |ds| && r.red == ds[k].red)
            && (r.green == m.green || exists k :: 0 <= k < |ds| && r.green == ds[k].green)
            && (r.blue == m.blue || exists k :: 0 <= k < |ds| && r.blue == ds[k].blue)
    decreases |ds|
  {
    if |ds| > 0 {
      FoldMaxIsLeastUpperBound(MaxDraw(m, ds[0]), ds[1..]);
      var r := FoldMax(m, ds);
      forall k | 0 <= k < |ds|
        ensures r.red >= ds[k].red && r.green >= ds[k].green && r.blue >= ds[k].blue
      {
        if k > 0 {
          assert ds[k] == ds[1..][k - 1];
        }
      }
      if r.red != m.red && r.red != ds[0].red {
        var k :| 0 <= k < |ds[1..]| && r.red == ds[1..][k].red;
        assert r.red == ds[k + 1].red;
      }
      if r.green != m.green && r.green != ds[0].green {
        var k :| 0 <= k < |ds[1..]| && r.green == ds[1..][k].green;
        assert r.green == ds[k + 1].green;
      }
      if r.blue != m.blue && r.blue != ds[0].blue {
        var k :| 0 <= k < |ds[1..]| && r.blue == ds[1..][k].blue;
        assert r.blue == ds[k + 1].blue;
      }
    }
  }

  /** The running maxima are the fold of the collected draws: the per-game
      minimal set is at least every draw of the line. */
  lemma {:induction false} MinimaAreFoldedDraws(s: string, i: nat, m: Draw)
    requires i <= |s|
    ensures DrawsFrom(s, i).Ok? <==> MinimaFrom(s, i, m).Ok?
    ensures DrawsFrom(s, i).Ok? ==> MinimaFrom(s, i, m).value == FoldMax(m, DrawsFrom(s, i).value)
    decreases |s| - i
  {
    if AreDrawsLeft(s, i) {
      match GetDrawAmounts(s, i)
      case Err(_) =>
      case Ok((d, e)) =>
        MinimaAreFoldedDraws(s, e, MaxDraw(m, d));
        if DrawsFrom(s, e).Ok? {
          var ds := DrawsFrom(s, e).value;
          assert ([d] + ds)[1..] == ds;
        }
    }
  }

  /** One game line: its id and its minimal cube set. */
  function ParseGame(line: string): (r: Result<(nat, Draw)>)
  {
    match ParseGameId(line)
    case Err(e) => Err(e)
    case Ok((id, colon)) =>
      match MinimaFrom(line, colon, Draw(0, 0, 0))
      case Err(e) => Err(e)
      case Ok(m) => Ok((id, m))
  }

  /** Part 1 adds the ids of the possible games and part 2 the powers of the
      minimal sets; a malformed line aborts. */
  function Solve(lines: seq<string>): (r: Result<(nat, nat)>)
  {
    if |lines| == 0 then Ok((0, 0))
    else
      match Solve(lines[..|lines| - 1])
      case Err(e) => Err(e)
      case Ok((p1, p2)) =>
        match ParseGame(lines[|lines| - 1])
        case Err(e) => Err(e)
        case Ok((id, m)) => Ok((p1 + (if IsValidDraw(m) then id else 0), p2 + SetPower(m)))
  }

  /** A game line parses exactly when its header and all its draws do; the
      minimal set is then the least set holding every draw (each colour is 0
      or the amount of some draw), and the game is possible exactly when
      every one of its draws is. */
  lemma GameIsItsDraws(line: string)
    ensures ParseGame(line).Ok? <==>
            ParseGameId(line).Ok? && DrawsFrom(line, ParseGameId(line).value.1).Ok?
    ensures ParseGame(line).Ok? ==>
              var ds := DrawsFrom(line, ParseGameId(line).value.1).value;
              var m := ParseGame(line).value.1;
              && ParseGame(line).value.0 == Atoi(line, 5)
              && (forall k :: 0 <= k < |ds| ==>
                    m.red >= ds[k].red && m.green >= ds[k].green && m.blue >= ds[k].blue)
              && (m.red == 0 || exists k :: 0 <= k < |ds| && m.red == ds[k].red)
              && (m.green == 0 || exists k :: 0 <= k < |ds| && m.green == ds[k].green)
              && (m.blue == 0 || exists k :: 0 <= k < |ds| && m.blue == ds[k].blue)
              && (IsValidDraw(m) <==> forall k :: 0 <= k < |ds| ==> IsValidDraw(ds[k]))
  {
    if ParseGameId(line).Ok? {
      var colon := ParseGameId(line).value.1;
      MinimaAreFoldedDraws(line, colon, Draw(0, 0, 0));
      if DrawsFrom(line, colon).Ok? {
        var ds := DrawsFrom(line, colon).value;
        FoldMaxIsLeastUpperBound(Draw(0, 0, 0), ds);
        var m := FoldMax(Draw(0, 0, 0), ds);
        if !IsValidDraw(m) {
          if m.red > NumberRedCubes {
            var k :| 0 <= k < |ds| && m.red == ds[k].red;
            assert !IsValidDraw(ds[k]);
          } else if m.green > NumberGreenCubes {
            var k :| 0 <= k < |ds| && m.green == ds[k].green;
            assert !IsValidDraw(ds[k]);
          } else {
            var k :| 0 <= k < |ds| && m.blue == ds[k].blue;
            assert !IsValidDraw(ds[k]);
          }
        }
      }
    }
  }

  /** The answers grow line by line: appending a line that parses adds its
      id when the game is possible and the power of its minimal set; any
      line that does not parse makes the whole input fail. */
  lemma SolveAppend(lines: seq<string>, line: string)
    ensures var r := Solve(lines + [line]);
            && (r.Ok? <==> Solve(lines).Ok? && ParseGame(line).Ok?)
            && (r.Ok? ==> var m := ParseGame(line).value.1;
                  && r.value.0 == Solve(lines).value.0 + (if IsValidDraw(m) then ParseGame(line).value.0 else 0)
                  && r.value.1 == Solve(lines).value.1 + m.red * m.green * m.blue)
  {
    assert (lines + [line])[..|lines|] == lines;
  }

  /** A game whose line fails to parse anywhere in the input fails the
      whole answer. */
  lemma {:induction false} SolveFailsOnBadLine(lines: seq<string>, k: nat)
    requires k < |lines| && ParseGame(lines[k]).Err?
    ensures Solve(lines).Err?
    decreases |lines|
  {
    if k < |lines| - 1 {
      SolveFailsOnBadLine(lines[..|lines| - 1], k);
    }
  }
}
