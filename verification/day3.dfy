/** Gear ratios: the engine schematic is one C string of rows of equal
    length separated by newlines.  Part 1 adds every number next to a
    symbol, part 2 adds the product of the two numbers next to each '*'.
    Cells are addressed by their index in the string, with rows of stride
    `rowLength + 1` (the newline included). */
module Day3 {
  import opened Common
  import opened CText

  /** The index of the first newline or terminator: the width of a row. */
  function RowLengthFrom(s: string, i: nat): (r: nat)
    requires i <= |s|
    ensures i <= r <= |s|
    ensures At(s, r) == '\n' || At(s, r) == '\0'
    ensures forall k :: i <= k < r ==> s[k] != '\n' && s[k] != '\0'
    decreases |s| - i
  {
    if At(s, i) == '\0' || At(s, i) == '\n' then i else RowLengthFrom(s, i + 1)
  }

  function RowLength(s: string): (r: nat)
    ensures r <= |s| && (At(s, r) == '\n' || At(s, r) == '\0')
    ensures forall k :: 0 <= k < r ==> s[k] != '\n' && s[k] != '\0'
  {
    RowLengthFrom(s, 0)
  }

  function IndexAt(row: nat, column: nat, rowLength: nat): nat
  {
    row * (rowLength + 1) + column
  }

  function PositionFrom(index: nat, rowLength: nat): (nat, nat)
  {
    (index / (rowLength + 1), index % (rowLength + 1))
  }

  /** Row and column are recovered from the index of any cell of a row,
      the newline column included. */
  lemma PositionOfIndex(row: nat, column: nat, rowLength: nat)
    requires column <= rowLength
    ensures PositionFrom(IndexAt(row, column, rowLength), rowLength) == (row, column)
  {
    var w := rowLength + 1;
    var i := IndexAt(row, column, rowLength);
    var q, m := i / w, i % w;
    assert q * w + m == row * w + column;
    if q > row {
      MulMonotone(row + 1, q, w);
      MulSucc(row, w);
    } else if q < row {
      MulMonotone(q + 1, row, w);
      MulSucc(q, w);
    }
  }

  lemma MulSucc(a: nat, w: nat)
    ensures (a + 1) * w == a * w + w
  {
  }

  lemma MulMonotone(a: nat, b: nat, w: nat)
    requires a <= b
    ensures a * w <= b * w
  {
  }

  /** The index is recovered from its position. */
  lemma IndexOfPosition(index: nat, rowLength: nat)
    ensures IndexAt(PositionFrom(index, rowLength).0, PositionFrom(index, rowLength).1, rowLength) == index
  {
  }

  /** Anything but a digit, '.', a newline or the terminator. */
  predicate IsSymbol(c: char)
  {
    !IsDigit(c) && c != '.' && c != '\n' && c != '\0'
  }

  /** One less, but not below zero: the clamped lower edge of the box. */
  function Below(x: nat): nat
  {
    if x == 0 then 0 else x - 1
  }

  predicate SymbolAt(s: string, row: nat, column: nat, rowLength: nat)
  {
    IndexAt(row, column, rowLength) < |s| && IsSymbol(s[IndexAt(row, column, rowLength)])
  }

  /** Whether a symbol lies in the box one cell around the number of
      `length` digits at `index`, clamped at row and column 0; cells at or
      past the end of the schematic are skipped. */
  predicate AdjacentSymbol(s: string, rowLength: nat, index: nat, length: nat)
  {
    var (row, column) := PositionFrom(index, rowLength);
    exists r: nat, c: nat ::
      Below(row) <= r <= row + 1 && Below(column) <= c <= column + length && SymbolAt(s, r, c, rowLength)
  }

  /** The box scan of the original, row by row. */
  method HasAdjacentSymbol(s: string, rowLength: nat, index: nat, length: nat) returns (found: bool)
    ensures found <==> AdjacentSymbol(s, rowLength, index, length)
  {
    var (row, column) := PositionFrom(index, rowLength);
    var rowEnd, columnEnd := row + 1, column + length;
    var r := Below(row);
    while r <= rowEnd
      invariant Below(row) <= r <= rowEnd + 1
      invariant forall r', c' :: Below(row) <= r' < r && Below(column) <= c' <= columnEnd ==> !SymbolAt(s, r', c', rowLength)
    {
      var c := Below(column);
      while c <= columnEnd
        invariant Below(column) <= c <= columnEnd + 1
        invariant forall c' :: Below(column) <= c' < c ==> !SymbolAt(s, r, c', rowLength)
      {
        var i := IndexAt(r, c, rowLength);
        if i < |s| && IsSymbol(s[i]) {
          assert SymbolAt(s, r, c, rowLength);
          return true;
        }
        c := c + 1;
      }
      r := r + 1;
    }
    return false;
  }

  /** What one index contributes to part 1 when the scan stands on it. */
  function NumberValue(s: string, rowLength: nat, i: nat): nat
    requires i < |s|
  {
    if AdjacentSymbol(s, rowLength, i, DigitRunEnd(s, i) - i) then Atoi(s, i) else 0
  }

  /** The part-1 scan from `i`: a digit starts a number, whose value counts
      when a symbol touches it, and the scan resumes past the character
      that ends the digit run. */
  function Part1From(s: string, rowLength: nat, i: nat): nat
    decreases |s| - i
  {
    if i >= |s| then 0
    else if !IsDigit(s[i]) then Part1From(s, rowLength, i + 1)
    else NumberValue(s, rowLength, i) + Part1From(s, rowLength, DigitRunEnd(s, i) + 1)
  }

  function Part1(s: string, rowLength: nat): nat
  {
    Part1From(s, rowLength, 0)
  }

  /** A digit that begins a maximal digit run. */
  predicate IsRunStart(s: string, p: nat)
    requires p < |s|
  {
    IsDigit(s[p]) && (p == 0 || !IsDigit(s[p - 1]))
  }

  /** The reference sum: every index from `i` on, counted when it begins a
      maximal digit run. */
  function RunSum(s: string, rowLength: nat, i: nat): nat
    decreases |s| - i
  {
    if i >= |s| then 0
    else (if IsRunStart(s, i) then NumberValue(s, rowLength, i) else 0) + RunSum(s, rowLength, i + 1)
  }

  /** Inside a digit run no index begins a run. */
  lemma {:induction false} RunSumSkipsRun(s: string, rowLength: nat, j: nat, e: nat)
    requires 0 < j <= e <= |s|
    requires forall k :: j - 1 <= k < e ==> IsDigit(s[k])
    ensures RunSum(s, rowLength, j) == RunSum(s, rowLength, e)
    decreases e - j
  {
    if j < e {
      RunSumSkipsRun(s, rowLength, j + 1, e);
    }
  }

  /** The scan sees each maximal digit run exactly once, at its first
      digit: part 1 is the sum over the runs that touch a symbol. */
  lemma {:induction false} Part1CountsEachRunOnce(s: string, rowLength: nat, i: nat)
    requires i <= |s|
    requires i == 0 || !IsDigit(s[i - 1])
    ensures Part1From(s, rowLength, i) == RunSum(s, rowLength, i)
    decreases |s| - i
  {
    if i < |s| {
      if !IsDigit(s[i]) {
        Part1CountsEachRunOnce(s, rowLength, i + 1);
      } else {
        var e := DigitRunEnd(s, i);
        RunSumSkipsRun(s, rowLength, i + 1, e);
        if e < |s| {
          Part1CountsEachRunOnce(s, rowLength, e + 1);
        }
      }
    }
  }

  lemma Part1IsSumOfRuns(s: string, rowLength: nat)
    ensures Part1(s, rowLength) == RunSum(s, rowLength, 0)
  {
    Part1CountsEachRunOnce(s, rowLength, 0);
  }

  /** The number whose digit run contains `index`, as written: the scan
      walks left to the character before the run and reads from there, but
      on reaching index 0 it reads from index 0 whatever is there. */
  function SerialContainingAsWritten(s: string, index: nat): nat
    requires index < |s|
    decreases index
  {
    if index == 0 then Atoi(s, 0)
    else if !IsDigit(s[index]) then Atoi(s, index + 1)
    else SerialContainingAsWritten(s, index - 1)
  }

  /** A number that starts at index 1 after a non-digit is read from index 0,
      where no digit stands, and so as 0: in ".5*" the 5 next to the gear is
      collected as 0. */
  lemma SerialAtIndexOneIsLost()
    ensures IsDigit(".5*"[1]) && !IsDigit(".5*"[0])
    ensures SerialContainingAsWritten(".5*", 1) == 0
    ensures Atoi(".5*", 1) == 5
  {
    var s := ".5*";
    assert DigitRunEnd(s, 0) == 0;
    assert DigitRunEnd(s, 2) == 2;
    assert DigitRunEnd(s, 1) == 2;
    assert s[1..2] == "5";
  }

  /** The number whose digit run contains `index`, with the left walk
      stopping at index 0 only when index 0 holds a digit. */
  function SerialContaining(s: string, index: nat): nat
    requires index < |s|
    decreases index
  {
    if !IsDigit(s[index]) then Atoi(s, index + 1)
    else if index == 0 then Atoi(s, 0)
    else SerialContaining(s, index - 1)
  }

  /** From any digit of a maximal run, the number read is the run's. */
  lemma {:induction false} SerialIsItsRun(s: string, index: nat, p: nat)
    requires p <= index < |s|
    requires forall k :: p <= k <= index ==> IsDigit(s[k])
    requires p == 0 || !IsDigit(s[p - 1])
    ensures SerialContaining(s, index) == Atoi(s, p)
    decreases index
  {
    if index > p {
      SerialIsItsRun(s, index - 1, p);
    }
  }

  /** The left walk as written reads the right number from any digit of a
      run that does not start at index 1. */
  lemma {:induction false} AsWrittenRightOffIndexOne(s: string, index: nat, p: nat)
    requires p <= index < |s|
    requires forall k :: p <= k <= index ==> IsDigit(s[k])
    requires p == 0 || (p >= 2 && !IsDigit(s[p - 1]))
    ensures SerialContainingAsWritten(s, index) == Atoi(s, p)
    decreases index
  {
    if index > p {
      AsWrittenRightOffIndexOne(s, index - 1, p);
    }
  }

  /** Which left walk reads the numbers around a gear: the one
      `collect_serial_number` calls, or the corrected one. */
  datatype Walk = AsWritten | Corrected

  /** The number whose digit run contains `index`, as the given walk reads
      it. */
  function SerialAt(walk: Walk, s: string, index: nat): nat
    requires index < |s|
  {
    match walk
    case AsWritten => SerialContainingAsWritten(s, index)
    case Corrected => SerialContaining(s, index)
  }

  /** A number starting at index 1 after a non-digit at index 0: the one
      run the two walks can read differently. */
  predicate RunAtIndexOne(s: string)
  {
    |s| >= 2 && !IsDigit(s[0]) && IsDigit(s[1])
  }

  /** Without a run at index 1 both walks read the same number from every
      digit. */
  lemma {:induction false} WalksAgree(s: string, index: nat)
    requires index < |s| && IsDigit(s[index]) && !RunAtIndexOne(s)
    ensures SerialAt(AsWritten, s, index) == SerialAt(Corrected, s, index)
    decreases index
  {
    if index > 0 {
      if IsDigit(s[index - 1]) {
        WalksAgree(s, index - 1);
      } else {
        assert index - 1 != 0;
        assert SerialContainingAsWritten(s, index - 1) == Atoi(s, index);
        assert SerialContaining(s, index - 1) == Atoi(s, index);
      }
    }
  }

  datatype CollectStatus = CollectOk | NoNumber | LimitExceeded

  /** The two number slots of a gear; 0 marks an empty slot. */
  datatype Slots = Slots(first: nat, second: nat)

  /** Collects the number at `index` into the first empty slot.  A number
      read as 0 leaves its slot looking empty, so the next number goes into
      the same slot. */
  function Collect(walk: Walk, slots: Slots, s: string, index: nat): (r: (CollectStatus, Slots))
    requires index < |s|
    ensures r.0 == NoNumber <==> !IsDigit(s[index])
    ensures r.0 == LimitExceeded <==> IsDigit(s[index]) && slots.first != 0 && slots.second != 0
    ensures r.0 != CollectOk ==> r.1 == slots
    ensures r.0 == CollectOk ==>
              if slots.first == 0 then r.1 == Slots(SerialAt(walk, s, index), slots.second)
              else r.1 == Slots(slots.first, SerialAt(walk, s, index))
  {
    if !IsDigit(s[index]) then (NoNumber, slots)
    else
      var v := SerialAt(walk, s, index);
      if slots.first == 0 then (CollectOk, slots.(first := v))
      else if slots.second == 0 then (CollectOk, slots.(second := v))
      else (LimitExceeded, slots)
  }

  /** The row above: the cell straight above, or when that holds no digit,
      the two diagonal cells (the left one only off column 0). */
  function CollectAbove(walk: Walk, s: string, rowLength: nat, i: nat): (r: Slots)
    requires i < |s|
  {
    var (row, column) := PositionFrom(i, rowLength);
    if row == 0 then Slots(0, 0)
    else
      var above := i - (rowLength + 1);
      var (status, slots) := Collect(walk, Slots(0, 0), s, above);
      if status == CollectOk then slots
      else
        var slots' := if column > 0 then Collect(walk, slots, s, above - 1).1 else slots;
        Collect(walk, slots', s, above + 1).1
  }

  /** The row below, when it lies inside the schematic: the cell straight
      below, or when that holds no digit the two diagonal cells.  `None`
      when a third number is met. */
  function CollectBelow(walk: Walk, s: string, rowLength: nat, i: nat, slots: Slots): (r: Option<Slots>)
  {
    var below := i + rowLength + 1;
    if below >= |s| then Some(slots)
    else
      var (status, slots1) := Collect(walk, slots, s, below);
      if status == LimitExceeded then None
      else if status == CollectOk then Some(slots1)
      else
        var (status2, slots2) := Collect(walk, slots1, s, below - 1);
        if status2 == LimitExceeded then None
        else if below + 1 >= |s| then Some(slots2)
        else
          var (status3, slots3) := Collect(walk, slots2, s, below + 1);
          if status3 == LimitExceeded then None else Some(slots3)
  }

  /** The cells left and right of the gear in its own row; `None` when a
      third number is met. */
  function CollectInRow(walk: Walk, s: string, rowLength: nat, i: nat, slots: Slots): (r: Option<Slots>)
    requires i < |s|
  {
    var column := i % (rowLength + 1);
    var left := if column > 0 then Collect(walk, slots, s, i - 1) else (CollectOk, slots);
    if left.0 == LimitExceeded then None
    else
      var right := if i + 1 < |s| then Collect(walk, left.1, s, i + 1) else (CollectOk, left.1);
      if right.0 == LimitExceeded then None else Some(right.1)
  }

  /** The numbers around the gear at `i`, in the order the original visits
      them; `None` when a third number is met in its row or the row below. */
  function GearSlots(walk: Walk, s: string, rowLength: nat, i: nat): (r: Option<Slots>)
    requires i < |s|
  {
    match CollectInRow(walk, s, rowLength, i, CollectAbove(walk, s, rowLength, i))
    case None => None
    case Some(slots) => CollectBelow(walk, s, rowLength, i, slots)
  }

  /** What the '*' at `i` adds to part 2: the product of its two numbers. */
  function GearValue(walk: Walk, s: string, rowLength: nat, i: nat): nat
    requires i < |s|
  {
    if s[i] != '*' then 0
    else
      match GearSlots(walk, s, rowLength, i)
      case None => 0
      case Some(slots) =>
        if slots.first == 0 && slots.second == 0 then 0 else slots.first * slots.second
  }

  function Part2From(walk: Walk, s: string, rowLength: nat, i: nat): nat
    decreases |s| - i
  {
    if i >= |s| then 0 else GearValue(walk, s, rowLength, i) + Part2From(walk, s, rowLength, i + 1)
  }

  /** Part 2 of the original is `Part2(AsWritten, ..)`; `Part2(Corrected, ..)`
      is the sum the puzzle asks for. */
  function Part2(walk: Walk, s: string, rowLength: nat): nat
  {
    Part2From(walk, s, rowLength, 0)
  }

  /** Where both walks read alike, every collection step agrees. */
  lemma CollectWalksAgree(s: string, slots: Slots, index: nat)
    requires index < |s| && !RunAtIndexOne(s)
    ensures Collect(AsWritten, slots, s, index) == Collect(Corrected, slots, s, index)
  {
    if IsDigit(s[index]) {
      WalksAgree(s, index);
    }
  }

  lemma AboveWalksAgree(s: string, rowLength: nat, i: nat)
    requires i < |s| && !RunAtIndexOne(s)
    ensures CollectAbove(AsWritten, s, rowLength, i) == CollectAbove(Corrected, s, rowLength, i)
  {
    var (row, column) := PositionFrom(i, rowLength);
    if row > 0 {
      var above := i - (rowLength + 1);
      CollectWalksAgree(s, Slots(0, 0), above);
      var slots := Collect(Corrected, Slots(0, 0), s, above).1;
      if column > 0 {
        CollectWalksAgree(s, slots, above - 1);
      }
      var slots' := if column > 0 then Collect(Corrected, slots, s, above - 1).1 else slots;
      CollectWalksAgree(s, slots', above + 1);
    }
  }

  lemma InRowWalksAgree(s: string, rowLength: nat, i: nat, slots: Slots)
    requires i < |s| && !RunAtIndexOne(s)
    ensures CollectInRow(AsWritten, s, rowLength, i, slots) == CollectInRow(Corrected, s, rowLength, i, slots)
  {
    var column := i % (rowLength + 1);
    if column > 0 {
      CollectWalksAgree(s, slots, i - 1);
    }
    var left := if column > 0 then Collect(Corrected, slots, s, i - 1) else (CollectOk, slots);
    if i + 1 < |s| {
      CollectWalksAgree(s, left.1, i + 1);
    }
  }

  lemma BelowWalksAgree(s: string, rowLength: nat, i: nat, slots: Slots)
    requires !RunAtIndexOne(s)
    ensures CollectBelow(AsWritten, s, rowLength, i, slots) == CollectBelow(Corrected, s, rowLength, i, slots)
  {
    var below := i + rowLength + 1;
    if below < |s| {
      CollectWalksAgree(s, slots, below);
      var slots1 := Collect(Corrected, slots, s, below).1;
      CollectWalksAgree(s, slots1, below - 1);
      var slots2 := Collect(Corrected, slots1, s, below - 1).1;
      if below + 1 < |s| {
        CollectWalksAgree(s, slots2, below + 1);
      }
    }
  }

  lemma GearValueWalksAgree(s: string, rowLength: nat, i: nat)
    requires i < |s| && !RunAtIndexOne(s)
    ensures GearValue(AsWritten, s, rowLength, i) == GearValue(Corrected, s, rowLength, i)
  {
    AboveWalksAgree(s, rowLength, i);
    var above := CollectAbove(Corrected, s, rowLength, i);
    InRowWalksAgree(s, rowLength, i, above);
    var inRow := CollectInRow(Corrected, s, rowLength, i, above);
    if inRow.Some? {
      BelowWalksAgree(s, rowLength, i, inRow.value);
    }
  }

  /** The discrepancy is confined to a run at index 1: on every other
      schematic the original's part 2 is the intended sum. */
  lemma {:induction false} Part2WalksAgree(s: string, rowLength: nat, i: nat)
    requires !RunAtIndexOne(s)
    ensures Part2From(AsWritten, s, rowLength, i) == Part2From(Corrected, s, rowLength, i)
    decreases |s| - i
  {
    if i < |s| {
      GearValueWalksAgree(s, rowLength, i);
      Part2WalksAgree(s, rowLength, i + 1);
    }
  }

  /** In ".5*3" the gear sits between 5 and 3.  As written the 5 is read
      as 0, which leaves the first slot looking empty, so the 3 takes it and
      the gear adds 3 * 0; the corrected walk adds 5 * 3. */
  lemma Part2LosesIndexOne()
    ensures RowLength(".5*3") == 4
    ensures Part2(AsWritten, ".5*3", 4) == 0
    ensures Part2(Corrected, ".5*3", 4) == 15
  {
    var s := ".5*3";
    assert DigitRunEnd(s, 0) == 0;
    assert DigitRunEnd(s, 4) == 4;
    assert DigitRunEnd(s, 3) == 4;
    assert DigitRunEnd(s, 2) == 2;
    assert DigitRunEnd(s, 1) == 2;
    assert s[1..2] == "5";
    assert s[3..4] == "3";
    assert SerialAt(AsWritten, s, 1) == 0;
    assert SerialAt(Corrected, s, 1) == 5;
    assert SerialAt(AsWritten, s, 3) == 3;
    assert SerialAt(Corrected, s, 3) == 3;
    assert GearValue(AsWritten, s, 4, 2) == 0;
    assert GearValue(Corrected, s, 4, 2) == 15;
  }

  /** One of the eight cells around `i`, as index offsets with the row
      stride. */
  predicate IsAround(i: nat, p: nat, rowLength: nat)
  {
    var w := rowLength + 1;
    p + w + 1 == i || p + w == i || p + w == i + 1 || p + 1 == i
    || p == i + 1 || p + 1 == i + w || p == i + w || p == i + w + 1
  }

  /** `v` is the number the walk reads from a digit around `i`. */
  predicate NumberAround(walk: Walk, s: string, rowLength: nat, i: nat, v: nat)
  {
    exists p :: 0 <= p < |s| && IsAround(i, p, rowLength) && IsDigit(s[p]) && v == SerialAt(walk, s, p)
  }

  /** Every filled slot holds a number around `i`. */
  predicate SlotsAround(walk: Walk, s: string, rowLength: nat, i: nat, slots: Slots)
  {
    (slots.first == 0 || NumberAround(walk, s, rowLength, i, slots.first))
    && (slots.second == 0 || NumberAround(walk, s, rowLength, i, slots.second))
  }

  lemma CollectKeepsAround(walk: Walk, s: string, rowLength: nat, i: nat, slots: Slots, p: nat)
    requires p < |s| && IsAround(i, p, rowLength) && SlotsAround(walk, s, rowLength, i, slots)
    ensures SlotsAround(walk, s, rowLength, i, Collect(walk, slots, s, p).1)
  {
    if IsDigit(s[p]) {
      assert NumberAround(walk, s, rowLength, i, SerialAt(walk, s, p));
    }
  }

  lemma AboveIsAround(walk: Walk, s: string, rowLength: nat, i: nat)
    requires i < |s|
    ensures SlotsAround(walk, s, rowLength, i, CollectAbove(walk, s, rowLength, i))
  {
    var w := rowLength + 1;
    var (row, column) := PositionFrom(i, rowLength);
    if row > 0 {
      assert i >= w;
      var above := i - w;
      CollectKeepsAround(walk, s, rowLength, i, Slots(0, 0), above);
      var slots := Collect(walk, Slots(0, 0), s, above).1;
      if Collect(walk, Slots(0, 0), s, above).0 != CollectOk {
        var slots' := slots;
        if column > 0 {
          CollectKeepsAround(walk, s, rowLength, i, slots, above - 1);
          slots' := Collect(walk, slots, s, above - 1).1;
        }
        CollectKeepsAround(walk, s, rowLength, i, slots', above + 1);
      }
    }
  }

  lemma BelowIsAround(walk: Walk, s: string, rowLength: nat, i: nat, slots: Slots)
    requires SlotsAround(walk, s, rowLength, i, slots)
    ensures CollectBelow(walk, s, rowLength, i, slots).Some? ==>
              SlotsAround(walk, s, rowLength, i, CollectBelow(walk, s, rowLength, i, slots).value)
  {
    var below := i + rowLength + 1;
    if below < |s| {
      CollectKeepsAround(walk, s, rowLength, i, slots, below);
      var slots1 := Collect(walk, slots, s, below).1;
      CollectKeepsAround(walk, s, rowLength, i, slots1, below - 1);
      var slots2 := Collect(walk, slots1, s, below - 1).1;
      if below + 1 < |s| {
        CollectKeepsAround(walk, s, rowLength, i, slots2, below + 1);
      }
    }
  }

  lemma InRowIsAround(walk: Walk, s: string, rowLength: nat, i: nat, slots: Slots)
    requires i < |s| && SlotsAround(walk, s, rowLength, i, slots)
    ensures CollectInRow(walk, s, rowLength, i, slots).Some? ==>
              SlotsAround(walk, s, rowLength, i, CollectInRow(walk, s, rowLength, i, slots).value)
  {
    var column := i % (rowLength + 1);
    if column > 0 {
      CollectKeepsAround(walk, s, rowLength, i, slots, i - 1);
    }
    var left := if column > 0 then Collect(walk, slots, s, i - 1) else (CollectOk, slots);
    if i + 1 < |s| {
      CollectKeepsAround(walk, s, rowLength, i, left.1, i + 1);
    }
  }

  /** Every number a gear collects is read from one of the eight cells
      around it. */
  lemma GearSlotsAreAround(walk: Walk, s: string, rowLength: nat, i: nat)
    requires i < |s|
    ensures GearSlots(walk, s, rowLength, i).Some? ==>
              SlotsAround(walk, s, rowLength, i, GearSlots(walk, s, rowLength, i).value)
  {
    AboveIsAround(walk, s, rowLength, i);
    var above := CollectAbove(walk, s, rowLength, i);
    InRowIsAround(walk, s, rowLength, i, above);
    if CollectInRow(walk, s, rowLength, i, above).Some? {
      BelowIsAround(walk, s, rowLength, i, CollectInRow(walk, s, rowLength, i, above).value);
    }
  }

  /** A cell adds to part 2 only when it is a '*' and both slots hold
      numbers around it; the addition is their product. */
  lemma GearMultipliesTwoNumbers(walk: Walk, s: string, rowLength: nat, i: nat)
    requires i < |s|
    ensures GearValue(walk, s, rowLength, i) != 0 ==>
              && s[i] == '*'
              && GearSlots(walk, s, rowLength, i).Some?
              && GearSlots(walk, s, rowLength, i).value.first != 0
              && GearSlots(walk, s, rowLength, i).value.second != 0
              && SlotsAround(walk, s, rowLength, i, GearSlots(walk, s, rowLength, i).value)
              && GearValue(walk, s, rowLength, i) == GearSlots(walk, s, rowLength, i).value.first * GearSlots(walk, s, rowLength, i).value.second
  {
    GearSlotsAreAround(walk, s, rowLength, i);
  }
}
