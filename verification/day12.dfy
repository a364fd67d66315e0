/** Hot springs: a row of springs, each operational ('.'), damaged ('#') or
    unknown ('?'), and the lengths of the contiguous damaged groups.  The
    number of ways to fill in the unknowns is counted by a memoised
    recursion over (row index, block index, current block length). */
module Day12 {
  import opened Common

  /** The row unfolded `multiple` times: copies joined by '?'.  A multiple of
      zero or one leaves the row as it is. */
  function Unfold(row: string, multiple: nat): string
  {
    if multiple <= 1 then row else Unfold(row, multiple - 1) + ['?'] + row
  }

  /** The block list repeated `multiple` times (at least once). */
  function Repeat(blocks: seq<nat>, multiple: nat): seq<nat>
  {
    if multiple <= 1 then blocks else Repeat(blocks, multiple - 1) + blocks
  }

  /** Appends `multiple - 1` further copies of the row, each after a '?', and
      of the block list. */
  method RepeatData(row: string, blocks: seq<nat>, multiple: nat) returns (row': string, blocks': seq<nat>)
    ensures row' == Unfold(row, multiple) && blocks' == Repeat(blocks, multiple)
  {
    row', blocks' := row, blocks;
    var i := 1;
    while i < multiple
      invariant multiple <= 1 ==> i == 1
      invariant 1 <= i && (multiple > 1 ==> i <= multiple)
      invariant row' == Unfold(row, i) && blocks' == Repeat(blocks, i)
    {
      row' := row' + ['?'];
      var k := 0;
      while k < |row|
        invariant 0 <= k <= |row|
        invariant row' == Unfold(row, i) + ['?'] + row[..k]
      {
        row' := row' + [row[k]];
        k := k + 1;
      }
      var j := 0;
      while j < |blocks|
        invariant 0 <= j <= |blocks|
        invariant blocks' == Repeat(blocks, i) + blocks[..j]
      {
        blocks' := blocks' + [blocks[j]];
        j := j + 1;
      }
      i := i + 1;
    }
  }

  /** Unfolding `m >= 1` times gives `m` copies and `m - 1` separators; the
      block list grows `m`-fold; one copy is the original. */
  lemma {:induction false} UnfoldLength(row: string, blocks: seq<nat>, m: nat)
    requires m >= 1
    ensures |Unfold(row, m)| == m * |row| + (m - 1) == CopyStart(m, |row|) - 1
    ensures |Repeat(blocks, m)| == m * |blocks|
    ensures Unfold(row, 1) == row && Repeat(blocks, 1) == blocks
  {
    if m > 1 {
      UnfoldLength(row, blocks, m - 1);
      NextCopy(m - 1, |row|);
    }
  }

  /** Where copy `k` of the row starts in the unfolded row. */
  function CopyStart(k: nat, rowLength: nat): nat
  {
    k * (rowLength + 1)
  }

  lemma NextCopy(k: nat, rowLength: nat)
    ensures CopyStart(k + 1, rowLength) == CopyStart(k, rowLength) + rowLength + 1
  {
  }

  /** Copy `k` of an `m`-fold unfolding is the row, and is followed by a '?'
      unless it is the last. */
  lemma {:induction false} UnfoldCopy(row: string, m: nat, k: nat)
    requires k < m
    ensures CopyStart(k, |row|) + |row| <= |Unfold(row, m)|
    ensures Unfold(row, m)[CopyStart(k, |row|) .. CopyStart(k, |row|) + |row|] == row
    ensures k < m - 1 ==> CopyStart(k, |row|) + |row| < |Unfold(row, m)|
    ensures k < m - 1 ==> Unfold(row, m)[CopyStart(k, |row|) + |row|] == '?'
  {
    UnfoldLength(row, [], m);
    var start := CopyStart(k, |row|);
    if m > 1 {
      var prev := Unfold(row, m - 1);
      UnfoldLength(row, [], m - 1);
      NextCopy(m - 1, |row|);
      assert Unfold(row, m) == prev + ['?'] + row;
      if k < m - 1 {
        UnfoldCopy(row, m - 1, k);
        assert Unfold(row, m)[..|prev|] == prev;
        if k == m - 2 {
          NextCopy(k, |row|);
          assert start + |row| == |prev|;
        } else {
          assert start + |row| < |prev|;
        }
      } else {
        assert start == |prev| + 1;
      }
    } else {
      assert k == 0 && start == 0;
    }
  }

  /** The arrangement count from a state: the row consumed up to
      `rowIndex`, `blockIndex` blocks closed and matched, and a damaged group
      of `blockLength` springs still open.  At the end of the row a state is
      one arrangement exactly when the blocks are used up: either the open
      group is the last block, or no group is open and every block is closed. */
  function Count(row: string, blocks: seq<nat>, rowIndex: nat, blockIndex: nat, blockLength: nat): nat
    requires rowIndex <= |row| && |blocks| > 0
    decreases |row| - rowIndex
  {
    if rowIndex == |row| then
      if blockIndex == |blocks| - 1 && blocks[|blocks| - 1] == blockLength then 1
      else if blockIndex == |blocks| && blockLength == 0 then 1
      else 0
    else
      var current := row[rowIndex];
      var damaged :=
        if current == '#' || current == '?' then Count(row, blocks, rowIndex + 1, blockIndex, blockLength + 1)
        else 0;
      var operational :=
        if current == '.' || current == '?' then
          if blockLength == 0 then Count(row, blocks, rowIndex + 1, blockIndex, 0)
          else if blockIndex < |blocks| && blocks[blockIndex] == blockLength then
            Count(row, blocks, rowIndex + 1, blockIndex + 1, 0)
          else 0
        else 0;
      damaged + operational
  }

  datatype State = State(rowIndex: nat, blockIndex: nat, blockLength: nat)

  /** A memo table whose every entry is the count of its state. */
  predicate MemoSound(row: string, blocks: seq<nat>, memo: map<State, nat>)
    requires |blocks| > 0
  {
    forall s :: s in memo ==> s.rowIndex <= |row| && memo[s] == Count(row, blocks, s.rowIndex, s.blockIndex, s.blockLength)
  }

  /** The memoised recursion: answers from the table when the state is known
      and records every state it computes. */
  method GetCountDynamic(memo: map<State, nat>, state: State, row: string, blocks: seq<nat>)
    returns (count: nat, memo': map<State, nat>)
    requires state.rowIndex <= |row| && |blocks| > 0
    requires MemoSound(row, blocks, memo)
    ensures count == Count(row, blocks, state.rowIndex, state.blockIndex, state.blockLength)
    ensures MemoSound(row, blocks, memo')
    decreases |row| - state.rowIndex
  {
    if state in memo {
      return memo[state], memo;
    }
    memo' := memo;
    if state.rowIndex == |row| {
      if state.blockIndex == |blocks| - 1 && blocks[|blocks| - 1] == state.blockLength {
        return 1, memo';
      } else if state.blockIndex == |blocks| && state.blockLength == 0 {
        return 1, memo';
      } else {
        return 0, memo';
      }
    }
    count := 0;
    var current := row[state.rowIndex];
    var next := state.rowIndex + 1;
    if current == '#' || current == '?' {
      var c;
      c, memo' := GetCountDynamic(memo', state.(rowIndex := next, blockLength := state.blockLength + 1), row, blocks);
      count := count + c;
    }
    if current == '.' || current == '?' {
      if state.blockLength == 0 {
        var c;
        c, memo' := GetCountDynamic(memo', state.(rowIndex := next), row, blocks);
        count := count + c;
      } else {
        var isCurrentBlockValid := state.blockIndex < |blocks| && blocks[state.blockIndex] == state.blockLength;
        if isCurrentBlockValid {
          var c;
          c, memo' := GetCountDynamic(memo', State(next, state.blockIndex + 1, 0), row, blocks);
          count := count + c;
        }
      }
    }
    memo' := memo'[state := count];
  }

  /** The arrangement count of one record, unfolded `multiple` times, starting
      from an empty memo table. */
  method GetCount(row: string, blocks: seq<nat>, multiple: nat) returns (count: nat)
    requires |blocks| > 0
    ensures count == RecordCount(row, blocks, multiple)
    ensures (forall b :: b in blocks ==> b > 0) ==>
              count == Arrangements(Unfold(row, multiple), Repeat(blocks, multiple))
  {
    var row', blocks' := RepeatData(row, blocks, multiple);
    RepeatNonEmpty(blocks, multiple);
    var memo;
    count, memo := GetCountDynamic(map[], State(0, 0, 0), row', blocks');
    if forall b :: b in blocks ==> b > 0 {
      CountMeansArrangements(row', blocks', 0, 0, 0);
    }
  }

  lemma {:induction false} RepeatNonEmpty(blocks: seq<nat>, m: nat)
    requires |blocks| > 0
    ensures |Repeat(blocks, m)| > 0
    ensures forall b :: b in Repeat(blocks, m) ==> b in blocks
  {
    if m > 1 {
      RepeatNonEmpty(blocks, m - 1);
    }
  }

  // ---------------------------------------------------------------------
  // The meaning of the count: a brute-force enumeration of assignments.

  /** The damaged groups of `s` scanned left to right, given the groups
      `closed` so far and an open group of length `open`. */
  function RunsFrom(s: string, closed: seq<nat>, open: nat): seq<nat>
  {
    if |s| == 0 then closed + (if open > 0 then [open] else [])
    else if s[0] == '#' then RunsFrom(s[1..], closed, open + 1)
    else RunsFrom(s[1..], closed + (if open > 0 then [open] else []), 0)
  }

  /** The lengths of the maximal runs of '#' in `s`, in order. */
  function Runs(s: string): seq<nat>
  {
    RunsFrom(s, [], 0)
  }

  /** The number of ways to replace every '?' of `rest` by '#' or '.' (every
      other character must already be one of them) such that, continuing
      from `closed` and `open`, the damaged groups are exactly `blocks`. */
  function BruteCount(rest: string, closed: seq<nat>, open: nat, blocks: seq<nat>): nat
  {
    if |rest| == 0 then (if RunsFrom([], closed, open) == blocks then 1 else 0)
    else
      (if rest[0] == '#' || rest[0] == '?' then BruteCount(rest[1..], closed, open + 1, blocks) else 0)
      + (if rest[0] == '.' || rest[0] == '?' then
           BruteCount(rest[1..], closed + (if open > 0 then [open] else []), 0, blocks)
         else 0)
  }

  /** The number of arrangements of a row: assignments to its unknowns whose
      damaged groups are the blocks. */
  function Arrangements(row: string, blocks: seq<nat>): nat
  {
    BruteCount(row, [], 0, blocks)
  }

  /** Scanning only appends groups. */
  lemma {:induction false} RunsFromExtends(s: string, closed: seq<nat>, open: nat)
    ensures |RunsFrom(s, closed, open)| >= |closed|
    ensures RunsFrom(s, closed, open)[..|closed|] == closed
  {
    if |s| > 0 {
      var closed' := if s[0] == '#' then closed else closed + (if open > 0 then [open] else []);
      var open' := if s[0] == '#' then open + 1 else 0;
      RunsFromExtends(s[1..], closed', open');
      assert RunsFrom(s, closed, open) == RunsFrom(s[1..], closed', open');
      assert closed'[..|closed|] == closed;
    }
  }

  /** Once the closed groups stray from the blocks, no assignment matches. */
  lemma {:induction false} DeadEnd(rest: string, closed: seq<nat>, open: nat, blocks: seq<nat>)
    requires !(|closed| <= |blocks| && blocks[..|closed|] == closed)
    ensures BruteCount(rest, closed, open, blocks) == 0
  {
    if |rest| == 0 {
      RunsFromExtends([], closed, open);
    } else {
      DeadEnd(rest[1..], closed, open + 1, blocks);
      var closed' := closed + (if open > 0 then [open] else []);
      assert closed'[..|closed|] == closed;
      DeadEnd(rest[1..], closed', 0, blocks);
    }
  }

  /** With positive block lengths, the memoised state machine counts exactly
      the arrangements: from any state it agrees with the brute-force
      enumeration continuing from the matched blocks and the open group. */
  lemma {:induction false} CountMeansArrangements(row: string, blocks: seq<nat>, rowIndex: nat,
                                                  blockIndex: nat, blockLength: nat)
    requires rowIndex <= |row| && |blocks| > 0 && blockIndex <= |blocks|
    requires forall b :: b in blocks ==> b > 0
    ensures Count(row, blocks, rowIndex, blockIndex, blockLength)
            == BruteCount(row[rowIndex..], blocks[..blockIndex], blockLength, blocks)
    decreases |row| - rowIndex
  {
    var rest := row[rowIndex..];
    var closed := blocks[..blockIndex];
    if rowIndex == |row| {
      var runs := RunsFrom([], closed, blockLength);
      if blockLength > 0 {
        assert runs == closed + [blockLength];
        if runs == blocks {
          assert blockIndex == |blocks| - 1 && blocks[|blocks| - 1] == blockLength;
        }
        if blockIndex == |blocks| - 1 && blocks[|blocks| - 1] == blockLength {
          assert blocks == blocks[..blockIndex] + [blocks[blockIndex]];
        }
      } else {
        assert runs == closed;
        if blockIndex == |blocks| - 1 {
          assert blocks[blockIndex] in blocks;
        }
        if runs == blocks {
          assert |closed| == |blocks|;
        }
      }
    } else {
      assert rest[1..] == row[rowIndex + 1..];
      var current := row[rowIndex];
      assert rest[0] == current;
      CountMeansArrangements(row, blocks, rowIndex + 1, blockIndex, blockLength + 1);
      if blockLength == 0 {
        assert closed + [] == closed;
        CountMeansArrangements(row, blocks, rowIndex + 1, blockIndex, 0);
      } else if blockIndex < |blocks| && blocks[blockIndex] == blockLength {
        assert closed + [blockLength] == blocks[..blockIndex + 1];
        CountMeansArrangements(row, blocks, rowIndex + 1, blockIndex + 1, 0);
      } else {
        var closed' := closed + [blockLength];
        if |closed'| <= |blocks| {
          assert closed'[blockIndex] == blockLength;
          assert blocks[..|closed'|][blockIndex] == blocks[blockIndex];
        }
        DeadEnd(row[rowIndex + 1..], closed', 0, blocks);
      }
    }
  }

  /** The state machine's count for one record unfolded `multiple` times. */
  function RecordCount(row: string, blocks: seq<nat>, multiple: nat): nat
    requires |blocks| > 0
  {
    RepeatNonEmpty(blocks, multiple);
    Count(Unfold(row, multiple), Repeat(blocks, multiple), 0, 0, 0)
  }

  /** The state machine's count of every unfolded record, in order. */
  function RecordCounts(records: seq<(string, seq<nat>)>, multiple: nat): (r: seq<nat>)
    requires forall i :: 0 <= i < |records| ==> |records[i].1| > 0
    ensures |r| == |records|
    ensures forall k :: 0 <= k < |r| ==> r[k] == RecordCount(records[k].0, records[k].1, multiple)
  {
    seq(|records|, i requires 0 <= i < |records| => RecordCount(records[i].0, records[i].1, multiple))
  }

  /** The arrangement count of every unfolded record, in order. */
  function ArrangementCounts(records: seq<(string, seq<nat>)>, multiple: nat): (r: seq<nat>)
    ensures |r| == |records|
    ensures forall k :: 0 <= k < |r| ==>
              r[k] == Arrangements(Unfold(records[k].0, multiple), Repeat(records[k].1, multiple))
  {
    seq(|records|, i requires 0 <= i < |records| =>
      Arrangements(Unfold(records[i].0, multiple), Repeat(records[i].1, multiple)))
  }

  /** With positive block lengths the state machine counts exactly the
      arrangements of every record. */
  lemma RecordCountsAreArrangements(records: seq<(string, seq<nat>)>, multiple: nat)
    requires forall i :: 0 <= i < |records| ==> |records[i].1| > 0
    requires forall i, b :: 0 <= i < |records| && b in records[i].1 ==> b > 0
    ensures RecordCounts(records, multiple) == ArrangementCounts(records, multiple)
  {
    var all, arr := RecordCounts(records, multiple), ArrangementCounts(records, multiple);
    forall k | 0 <= k < |records|
      ensures all[k] == arr[k]
    {
      RepeatNonEmpty(records[k].1, multiple);
      CountMeansArrangements(Unfold(records[k].0, multiple), Repeat(records[k].1, multiple), 0, 0, 0);
    }
  }

  /** Part 1 and part 2: the counts summed over all records.  With positive
      block lengths the sum is that of the records' arrangement counts. */
  method Solve(records: seq<(string, seq<nat>)>, multiple: nat) returns (total: nat)
    requires forall i :: 0 <= i < |records| ==> |records[i].1| > 0
    ensures total == SumNat(RecordCounts(records, multiple))
    ensures (forall i, b :: 0 <= i < |records| && b in records[i].1 ==> b > 0) ==>
              total == SumNat(ArrangementCounts(records, multiple))
  {
    total := 0;
    var i := 0;
    ghost var all := RecordCounts(records, multiple);
    while i < |records|
      invariant 0 <= i <= |records|
      invariant total == SumNat(all[..i])
    {
      var c := GetCount(records[i].0, records[i].1, multiple);
      assert all[..i + 1][..i] == all[..i];
      total := total + c;
      i := i + 1;
    }
    assert all[..i] == all;
    if forall j, b :: 0 <= j < |records| && b in records[j].1 ==> b > 0 {
      RecordCountsAreArrangements(records, multiple);
    }
  }
}
