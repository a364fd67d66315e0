# Advent of Code 2023 solvers, modelled in Dafny

This project models the puzzle logic of a set of Advent of Code 2023
solutions written in C, C++, Rust, JavaScript and Python, and proves what
that logic computes. Each source file becomes one Dafny module
(`Day1` … `Day25`), and three small modules are shared between them:

- `Common` holds `Option`, a `Result` that carries the reason the original
  aborts (an assertion, an exception, an `exit(EXIT_FAILURE)`, a read past a
  buffer), and a few arithmetic facts.
- `CText` is a view of C strings as character sequences with a terminator.
- `Grids` holds character grids and cell counts.

Text has already been read into memory: file reading, argument handling
and printing are not modelled. Every operation is a pure function or a
method with loop invariants. Each is paired with a reference definition
or an invariant, and an all-inputs lemma connects the two. Fixed-width
integers are modelled as unbounded ones (see "Left out").

## Model

| member | source | states |
|---|---|---|
| Day1.LiteralLengthsAgree | src/day1.c:7-8 | The length table gives the length of each of the ten spelled digit words, and every word is made of lower-case letters |
| Day1.StringCompareIsPrefix | src/day1.c:55-62 | string_compare(n, a, b) holds exactly when b starts with the first n characters of a; a mismatch with b's terminator ends the scan |
| Day1.MatchLiteral | src/day1.c:46-51 | Finds the first of the words k..9 spelled at the index, and finds none exactly when no such word is spelled there |
| Day1.TryParseDigit | src/day1.c:36-53 | An ASCII digit reads as its value. Otherwise, without literals nothing is read; with literals a digit is read exactly when some word is spelled there, and the word read is one spelled there |
| Day1.LiteralsOnlyAdd | src/day1.c:36-53 | Allowing literals never changes a digit that is already read without them |
| Day1.End | src/day1.c:18 | The scan stops at the first terminator: the index holds '\0' and no earlier character does |
| Day1.FirstDigitIsLowest | src/day1.c:15-32 | The first digit is the one read at the lowest index where any digit parses |
| Day1.LastDigitIsHighest | src/day1.c:15-32 | The last digit is the one read at the highest index before the terminator where any digit parses |
| Day1.FindFirstLastDigit | src/day1.c:15-32 | The loop reports "no digit" exactly when no index parses; otherwise it returns the first and the last digit of the line |
| Day1.CalibrationDigits | src/day1.c:34 | For two digits the calibration value is at most 99, and its tens and units digits are the first and the last digit |
| Day1.LineValue | src/day1.c:83-94 | A line's value is at most 99, and reading it fails exactly when the line has no digit |
| Day1.LiteralLineHasDigit | src/day1.c:84-93 | A line that passes part 1 also passes part 2 |
| Day1.SolveFailsOnDigitlessLine | src/day1.c:82-95 | Both sums fail exactly when some line has no ASCII digit, and each sum is at most 99 per line |
| Day1.NoWordInShortTail | src/day1.c:46-51 | No word is read fewer than three characters before the end of a line |
| Day1.OverlappingWordsBothCount | src/day1.c:15-53 | With literals, "eightwo" reads 8 first and 2 last, so overlapping words both count: the value is 82 |
| Day2.ParseGameId | src/day2.c:18-22 | Stops at the first ':' from index 5 on and reads the id with atoi at index 5; fails exactly when no ':' follows index 5 |
| Day2.AreDrawsLeft | src/day2.c:24-31 | True exactly when some digit occurs at or after the index |
| Day2.NextDigitFindsFirst | src/day2.c:40-41 | The digit scan stops at the first digit after the index, and fails exactly when none comes before the terminator |
| Day2.NextLowerFindsFirst | src/day2.c:44-45 | The colour scan stops at the first lower-case letter after the index, and fails exactly when none comes before the terminator |
| Day2.SkipLowerStopsFirst | src/day2.c:63-64 | The word skip stops at the first index after the colour letter that holds no lower-case letter |
| Day2.SetColour | src/day2.c:48-61 | 'r', 'g' and 'b' set their colour; any other colour letter is the fatal "unknown colour" |
| Day2.GetDrawAmounts | src/day2.c:33-68 | A draw's entries are read up to a ';', a newline or the terminator, and the returned index is that delimiter, past the starting one |
| Day2.DrawStepReads | src/day2.c:40-64 | One entry reads the amount at the first digit after the index and sets the colour named by the first lower-case letter after that digit, then stops after the colour word; it fails exactly when a scan runs past the terminator or that letter is not 'r', 'g' or 'b' |
| Day2.ReadEntry | src/day2.c:40-64 | An entry written as "<amount> <colour>" after non-digits is read back: its colour gets its amount and the scan stops right after the colour word |
| Day2.ReadEntries | src/day2.c:39-65 | Entries laid out with ", " between them up to a ';', a newline or the terminator are read in order, each setting its colour, and the loop stops on that delimiter |
| Day2.GetDrawAmountsRoundTrip | src/day2.c:33-67 | A delimiter followed by a space and entries joined by ", " reads back as the draw where each colour is 0 unless an entry names it, and then the amount of the last entry naming it; the new index is the delimiter after the entries |
| Day2.Max | src/day2.c:70 | The result is at least both arguments and equals one of them |
| Day2.FoldMaxIsLeastUpperBound | src/day2.c:104-111 | The folded colour-wise maxima dominate the start and every draw, and each colour equals the start or some draw |
| Day2.MinimaAreFoldedDraws | src/day2.c:104-111 | The running maxima of the draw loop are the fold of the collected draws, and the loop fails exactly when collecting does |
| Day2.GameIsItsDraws | src/day2.c:97-117 | A line parses exactly when its header and its draws do. Its minimal set is then the least set holding every draw, and the game passes the 12/13/14 check exactly when each of its draws does |
| Day2.SolveAppend | src/day2.c:96-118 | Each parsed line adds its id when the game is possible and the product red·green·blue of its minimal set; the total parses exactly when every line does |
| Day2.SolveFailsOnBadLine | src/day2.c:96-118 | One line that does not parse makes the whole answer fail |
| Day3.RowLengthFrom | src/day3.c:23-29 | The scan stops at the first newline or terminator from the start index, and no character before it is either |
| Day3.RowLength | src/day3.c:23-29 | The row width is the index of the first newline or terminator |
| Day3.PositionOfIndex | src/day3.c:31-40 | Any cell of a row, the newline column included, gets its row and column back from its index |
| Day3.IndexOfPosition | src/day3.c:31-40 | Any index is rebuilt from the row and column computed from it |
| Day3.HasAdjacentSymbol | src/day3.c:44-67 | True exactly when a symbol lies in the box one cell around the number, with the box clamped at row and column 0 and cells past the end skipped |
| Day3.RunSumSkipsRun | src/day3.c:78-87 | No index inside a digit run begins a run, so none of them adds anything |
| Day3.Part1CountsEachRunOnce | src/day3.c:69-91 | The part-1 scan adds each maximal digit run exactly once, at its first digit, when a symbol touches it |
| Day3.Part1IsSumOfRuns | src/day3.c:69-91 | Part 1 is the sum over the maximal digit runs that touch a symbol |
| Day3.SerialAtIndexOneIsLost | src/day3.c:93-103 | As written, in ".5*" the number 5 next to the gear is read as 0 |
| Day3.AsWrittenRightOffIndexOne | src/day3.c:93-103 | As written, the left walk reads the right number from any digit of a run that does not start at index 1 |
| Day3.SerialIsItsRun | src/day3.c:93-103 | With index 0 treated like any other index, every digit of a maximal run reads that run's number |
| Day3.WalksAgree | src/day3.c:93-103 | Unless a number starts at index 1 after a non-digit at index 0, the walk as written and the corrected walk read the same number from every digit |
| Day3.Collect | src/day3.c:105-119 | With either walk (the original's is `AsWritten`): a non-digit gives "no number"; a digit with both slots filled gives "limit exceeded"; otherwise the number the walk reads fills the first empty slot. The slots change only on success |
| Day3.CollectKeepsAround | src/day3.c:105-119 | With either walk, collecting from a cell around the gear keeps every filled slot a number around the gear |
| Day3.AboveIsAround | src/day3.c:133-143 | With either walk, the row above only collects numbers that cover a cell around the gear |
| Day3.InRowIsAround | src/day3.c:145-155 | With either walk, the cells left and right of the gear only collect numbers around the gear |
| Day3.BelowIsAround | src/day3.c:157-173 | With either walk, the row below only collects numbers around the gear |
| Day3.GearSlotsAreAround | src/day3.c:121-173 | With either walk, every number a gear collects covers one of its eight neighbouring cells |
| Day3.GearMultipliesTwoNumbers | src/day3.c:121-180 | With either walk, a cell adds to part 2 only when it is a '*' with two filled slots around it, and then it adds their product |
| Day3.Part2WalksAgree | src/day3.c:121-182 | Unless a number starts at index 1 after a non-digit at index 0, part 2 as written equals the corrected part 2 |
| Day3.Part2LosesIndexOne | src/day3.c:121-182 | On ".5*3" part 2 as written is 0, while the corrected part 2 is 5 * 3 = 15 |
| Day4.FindChar | src/day4.c:17-20 | Stops at the first occurrence of the character; fails exactly when the line holds none from the start index on |
| Day4.SkipNonDigits | src/day4.c:24-26 | Stops at the first digit; fails exactly when no digit follows |
| Day4.WinningNumbers | src/day4.c:23-36 | Reading the winning numbers ends on the '|' and every number fits the 100-entry table, or the reading fails |
| Day4.HaveNumbers | src/day4.c:39-53 | Every held number fits the 100-entry table, or the reading fails |
| Day4.MarkWinning | src/day4.c:22-36 | The table loop ends on the '|' |
| Day4.MarkingHoldsWinningNumbers | src/day4.c:22-36 | The table holds exactly the winning numbers read, and both readings succeed together and stop at the same '|' |
| Day4.CountingCountsMatches | src/day4.c:38-55 | The counting loop counts the held numbers that are in the table, repeats included, and succeeds exactly when reading the held numbers does |
| Day4.CardMatchesAreWinningHeld | src/day4.c:16-56 | A card's match count is the number of its held numbers that are among its winning numbers, so at most the held count |
| Day4.CardFailsWhereReadingFails | src/day4.c:16-56 | A card fails exactly when its ':' is missing, or its winning or held numbers fail to read |
| Day4.PointValueDoubles | src/day4.c:58-64 | No match scores 0, and n matches score 2 to the power n-1 |
| Day4.CountCards | src/day4.c:71-93 | Each card ends with its reference number of copies: one, plus the copies of every earlier card whose matches reach it. The loop fails exactly when the card count or a reach passes the 202-entry table |
| Day4.CopiesExceedReachingCard | src/day4.c:90-92 | A card has at least one copy more than any earlier card that reaches it |
| Day4.ReceivedGrows | src/day4.c:90-92 | The copies a card receives only grow as more cards are processed |
| Day4.CollectAllEach | src/day4.c:77-83 | Collecting the cards' results succeeds exactly when each card does, and keeps each value in order |
| Day4.ReadAllMatchesReadsEach | src/day4.c:77-83 | The matches read are each card's own, and reading fails exactly when some card fails |
| Day4.ReadCards | src/day4.c:77-84 | The per-card loop succeeds exactly when every card reads, and its points are the sum of the cards' point values |
| Day4.SumCounts | src/day4.c:95-98 | Part 2 is the sum of the copy counts of all cards |
| Day4.Solve | src/day4.c:66-106 | Both parts succeed only when every card reads; they are then the total points and the total number of cards with all copies won |
| Day5.ApplyValue | src/day5.py:16-20 | A value moves by the first entry whose source range holds it, and stays itself when no entry holds it |
| Day5.Keep | src/day5.py:36-43 | A sub-range is kept only when it is non-empty |
| Day5.SplitEntry | src/day5.py:28-43 | One entry's pass yields only non-empty ranges |
| Day5.UnmappedPoints | src/day5.py:32-34 | The parts below and above the entry hold exactly the range's values the entry does not take |
| Day5.MappedPoints | src/day5.py:33-41 | The shifted middle part holds exactly the images of the range's values the entry takes |
| Day5.SplitEntryMapped | src/day5.py:28-43 | One entry's pass maps exactly the values the entry takes |
| Day5.SplitEntryUnmapped | src/day5.py:28-46 | One entry's pass leaves for the next entry exactly the values it does not take |
| Day5.PassComplete | src/day5.py:22-49 | Every input value comes out: shifted among the mapped ranges when some entry takes it, unchanged among the rest otherwise |
| Day5.PassUnmapped | src/day5.py:22-49 | A value left unmapped was in the input and no entry takes it |
| Day5.PassMapped | src/day5.py:22-49 | A mapped value is the image of an input value that some entry takes |
| Day5.ApplyRangesPoints | src/day5.py:16-49 | The output ranges cover exactly the images, under the value mapping, of the input ranges' values |
| Day5.SplitSpanLength | src/day5.py:32-43 | The three parts of a range cut by an entry add up to the range's length |
| Day5.SplitEntryLength | src/day5.py:28-43 | One entry's pass keeps the total length of the ranges |
| Day5.PassLength | src/day5.py:22-49 | All entries' passes together keep the total length |
| Day5.ApplyRangesKeepsLength | src/day5.py:22-49 | Applying a mapping to ranges keeps their total length, so each value lands somewhere exactly once |
| Day5.PassNonEmpty | src/day5.py:22-49 | The passes produce only non-empty ranges |
| Day5.ApplyRangesNonEmpty | src/day5.py:22-49 | A mapping with entries yields only non-empty ranges |
| Day5.MapSeedComposes | src/day5.py:55-58 | Mapping a seed through a chain of mappings is mapping it through the first part and then the rest |
| Day5.ApplyAllPoints | src/day5.py:67-71 | A value comes out of the chain of mappings exactly when it is the image of a seed that went in |
| Day5.ApplyAllNonEmpty | src/day5.py:67-71 | Non-empty ranges stay non-empty through the chain |
| Day5.MinStart | src/day5.py:72 | The least start is one of the starts and no start is lower |
| Day5.MapSeedRangeIsMinimum | src/day5.py:67-72 | For a non-empty seed range the result is the lowest location any of its seeds reaches: one seed reaches it and none goes lower |
| Day7.CardRank | src/day7.py:5-18 | A digit ranks as its value, 'J' as 11 or as 1 with jokers, and every card ranks from 1 to 14; other characters have no rank |
| Day7.RanksAreDistinct | src/day7.py:5-18 | Different cards rank differently, and a joker ranks below every other card |
| Day7.Grouping | src/day7.py:39-45 | The grouping has six slots, and no card is counted zero times |
| Day7.GroupSetAppend | src/day7.py:40-41 | Adding a card moves it from the group of its old count to the next group up |
| Day7.GroupingWeighs | src/day7.py:39-45 | The groups of a hand account for every one of its cards |
| Day7.WeightStep | src/day7.py:40-45 | One more card adds exactly one card to the grouping's total |
| Day7.GroupSizeStep | src/day7.py:40-45 | One more card makes its new group one larger and its old group one smaller |
| Day7.MorphJokers | src/day7.py:21-35 | The grouping stays six slots; without jokers, or with five of a kind, it is returned unchanged |
| Day7.FiveCardsHaveAType | src/day7.py:21-64 | Every grouping of five cards has a type from 1 to 7, and the joker morph of it never raises and still holds five cards |
| Day7.FiveCardHandType | src/day7.py:38-64 | Every five-card hand gets a type from 1 to 7, with or without jokers |
| Day7.JokersNeverHurt | src/day7.py:21-64 | The joker type is at least the plain type, and equals it for a hand without 'J' |
| Day7.CompareRanksAntisymmetric | src/day7.py:81-87 | Swapping the card lists negates the comparison, which is never zero |
| Day7.CompareHandsAntisymmetric | src/day7.py:74-87 | Swapping the hands negates the comparison, and two hands never compare equal |
| Day7.CompareRanksIsLex | src/day7.py:81-87 | On real cards the comparison is negative exactly when the first list is lexicographically lower in rank |
| Day7.CompareHandsIsOrder | src/day7.py:74-87 | On real cards the comparison is negative exactly when the first hand is lower by type, then by ranks |
| Day7.RanksLessAsymmetric | src/day7.py:81-87 | The rank order is asymmetric |
| Day7.RankIsPlace | src/day7.py:94-99 | In a strictly sorted list a hand's rank, one more than the hands it beats, is its place |
| Day7.WinningsAreRankWeighted | src/day7.py:97-99 | The winnings of the sorted hands are each bid times its hand's rank, whatever order produced the list |
| Day8.Next | src/day8.py:20-22 | One step takes the left or right successor as the instruction at the step count, modulo the instruction count, says; empty instructions fail on the modulo and an unknown node on the lookup |
| Day8.Solve | src/day8.py:16-24 | The step count returned is the first at which the walk stands on a goal node: it is there, and no earlier position was. A failure is the lookup or modulo failure of the step after a goal-free prefix |
| Day8.WalkSplits | src/day8.py:19-23 | A walk of a+b steps is a walk of a steps followed by a walk of b steps from where it stopped |
| Day8.WalkPeriodic | src/day8.py:20 | Shifting the step count by whole passes of the instructions does not change the walk |
| Day8.WholePassesRestart | src/day8.py:34-38 | After whole passes of the instructions the walk continues exactly as a fresh walk from where it stands, the periodicity part 2 relies on |
| Day8.Gcd | src/day8.py:28 | The gcd divides both numbers, every common divisor divides it, and it is 0 only for 0 and 0 |
| Day8.Lcm | src/day8.py:27-28 | a·b // gcd(a, b) times the gcd is a·b, and it is a common multiple of the non-zero arguments; it is 0 exactly when one argument is 0, and fails only on 0 and 0 |
| Day8.LcmDivides | src/day8.py:27-28 | a·b divided by a common divisor is a multiple of both a and b |
| Day8.LcmAll | src/day8.py:37-39 | Reducing with lcm yields a multiple of every non-zero step count, positive when all are positive; reducing nothing raises |
| Day9.Diffs | src/day9.rs:28 | The differences are one fewer than the values, and each is the step between neighbouring values |
| Day9.DiffsAppend | src/day9.rs:28 | Appending a value appends its step from the last value to the differences |
| Day9.DiffsPrepend | src/day9.rs:28 | Prepending a value prepends its step to the first value to the differences |
| Day9.Predict | src/day9.rs:23-26 | An all-zero history, the empty one included, predicts 0 both ways |
| Day9.PredictConstant | src/day9.rs:23-35 | A constant history predicts its constant both ways |
| Day9.ArithmeticDiffs | src/day9.rs:28 | An arithmetic history's differences are all its common step |
| Day9.PredictUnfold | src/day9.rs:28-34 | A history that is not all zero is non-empty, and its predictions are its first value minus and its last value plus the predictions of its differences |
| Day9.PredictArithmetic | src/day9.rs:23-35 | An arithmetic history a, a+d, … of n values predicts a-d backwards and a+n·d forwards |
| Day9.NextKeepsPrevious | src/day9.rs:23-35 | Appending the forward prediction leaves the backward prediction unchanged |
| Day9.PreviousKeepsNext | src/day9.rs:23-35 | Prepending the backward prediction leaves the forward prediction unchanged |
| Day9.SolveSumsPredictions | src/day9.rs:8-17 | Part 1 is the sum of the forward predictions and part 2 the sum of the backward ones |
| Day10.Opposite | src/day10.rs:153-159 | The opposite direction is another direction |
| Day10.Clockwise | src/day10.rs:171-178 | The clockwise turn is neither the same direction nor its opposite |
| Day10.TurnsAreQuarterTurns | src/day10.rs:161-179 | A right turn is exactly the clockwise successor and a left turn exactly the counter-clockwise one. No successor is both, and a successor is a turn exactly when it is neither straight on nor back |
| Day10.PipesHaveTwoExits | src/day10.rs:188-214 | Each of the six pipe glyphs has exactly two exits, and every other character has none |
| Day10.FindFirstTile | src/day10.rs:20-29 | Returns the first cell holding the tile in row-major order, or nothing exactly when no cell holds it |
| Day10.CellAt | src/day10.rs:16-18 | Reading a cell succeeds exactly on the grid and gives that cell |
| Day10.GetNextTileFromStart | src/day10.rs:31-47 | Returns the first of up, down, left, right whose neighbour leads back to the start, one step that way, or nothing when none does; on a rectangular grid it never aborts |
| Day10.GetNextTile | src/day10.rs:49-68 | The step goes one cell in a direction the glyph opens to, never back the way the walk came, and is the first such in up-down-left-right order. Nothing exactly when the glyph has no other exit; stepping across row or column 0 aborts |
| Day10.FollowPipe | src/day10.rs:49-68 | Entering a pipe through one end leaves it through the other, unless that end crosses row or column 0 |
| Day10.ReplaceNoneLoopTiles | src/day10.rs:70-78 | The grid keeps its shape |
| Day10.ReplaceKeepsOnlyLoop | src/day10.rs:70-78 | Loop cells keep their glyph and every other cell becomes the tile |
| Day10.ReplaceIsIdempotent | src/day10.rs:70-78 | Replacing twice is replacing once |
| Day10.CountDrops | src/day10.rs:148-150 | When cells only turn from the old tile to the new one, the count of the old tile does not grow |
| Day10.OnlyOldToNewTrans | src/day10.rs:136-146 | Two fills in a row still only turn old tiles into new ones |
| Day10.SettledStays | src/day10.rs:136-146 | A cell whose neighbours hold no old tile keeps that property through a fill |
| Day10.ClosedTrans | src/day10.rs:136-146 | Two bordered fills in a row make one bordered fill |
| Day10.MarkBlob | src/day10.rs:136-146 | The fill only turns old tiles into new ones, leaves none next to any cell it changed, and leaves the grid alone when the start is not an old tile; it terminates because each filled cell removes an old tile, and stepping off the grid aborts |
| Day10.MarkEach | src/day10.rs:142-145 | Filling from each neighbour in turn only turns old tiles into new ones, stays bordered, and leaves no neighbour holding an old tile |
| Day10.EachCloses | src/day10.rs:142-145 | One neighbour's fill followed by the others' is a bordered fill that reached them all |
| Day10.FillCloses | src/day10.rs:136-146 | Setting the cell and filling all four neighbours is a bordered fill that clears the cell |
| Day11.FindGalaxies | src/day11.rs:38-48 | The list holds exactly the '#' cells, in strictly increasing row-major order |
| Day11.GalaxiesSorted | src/day11.rs:38-48 | Any earlier galaxy of the list comes before any later one in row-major order |
| Day11.RowFlags | src/day11.rs:56 | A row is flagged exactly when it holds only '.' |
| Day11.FindEmptyRows | src/day11.rs:50-63 | Entry i counts the all-'.' rows among rows 0..=i |
| Day11.ColumnFrom | src/day11.rs:71 | A column is all '.' exactly when every row has a '.' there; a row too short for the column aborts |
| Day11.ColumnFlags | src/day11.rs:71 | A column is flagged exactly when every row holds '.' in it |
| Day11.FindEmptyCols | src/day11.rs:65-78 | Entry i counts the all-'.' columns among columns 0..=i of the first row's width; an empty image aborts, and a rectangular one never does |
| Day11.PrefixCountShape | src/day11.rs:50-78 | Each count grows by one exactly at a flagged line and stays otherwise, never exceeds the lines seen, and never decreases |
| Day11.GetStepCount | src/day11.rs:94-103 | Succeeds exactly when both indices are in the table, the expansion is at least 1 and the table does not decrease between them, as the unsigned subtractions demand |
| Day11.StepCountUnexpanded | src/day11.rs:94-103 | A line is no steps from itself, and with expansion 1 the count is the plain distance |
| Day11.ExpandedSpanCounts | src/day11.rs:101-102 | The expanded width between two lines is their distance plus expansion-1 for each empty line crossed |
| Day11.StepCountIsExpandedSpan | src/day11.rs:94-103 | Over a prefix-count table the step count never aborts and is the expanded width between the two lines, counting each empty line as `expansion` |
| Day11.ShortestPath | src/day11.rs:80-92 | Succeeds exactly when both axis counts do |
| Day11.ShortestPathIsExpandedDistance | src/day11.rs:80-103 | With the finders' tables, the distance between two cells is the expanded row width plus the expanded column width, and the same both ways round |
| Day12.RepeatData | src/day12.rs:40-54 | The row becomes `multiple` copies joined by '?', and the blocks `multiple` copies in a row; a multiple of 0 or 1 leaves both as they are |
| Day12.UnfoldLength | src/day12.rs:40-54 | m copies of the row and m-1 separators, m copies of the blocks, and one copy is the original |
| Day12.UnfoldCopy | src/day12.rs:44-49 | Copy k of the unfolded row is the original row, followed by a '?' unless it is the last |
| Day12.GetCountDynamic | src/day12.rs:64-144 | The memoised recursion returns the state machine's count for the state, and every table entry stays the count of its state |
| Day12.GetCount | src/day12.rs:17-38 | A record's count is the state machine's count from the empty state on the unfolded record; with positive block lengths that is the number of ways to fill in the unknown springs so that the damaged groups are exactly the blocks |
| Day12.RepeatNonEmpty | src/day12.rs:50-52 | Repeating a non-empty block list keeps it non-empty and adds no new block length |
| Day12.RunsFromExtends | src/day12.rs:89-139 | Scanning further only appends damaged groups |
| Day12.DeadEnd | src/day12.rs:122-137 | Once a closed group differs from its block, no way of filling in the rest matches |
| Day12.CountMeansArrangements | src/day12.rs:64-144 | From any state, with positive block lengths, the count equals the brute-force number of fillings of the rest whose groups, after the matched blocks and the open group, are exactly the blocks |
| Day12.RecordCounts | src/day12.rs:13-15 | One count per record, each that record's state-machine count |
| Day12.ArrangementCounts | src/day12.rs:13-15 | One count per record, each that record's number of arrangements |
| Day12.Solve | src/day12.rs:13-15 | The answer is the sum of the records' counts, and with positive block lengths the sum of their arrangement counts |
| Day12.RecordCountsAreArrangements | src/day12.rs:56-143 | With positive block lengths every record's count is its number of arrangements |
| Day13.Pairs | src/day13.js:13-16 | A line inside the pattern compares at least one pair, and never more pairs than fit on either side |
| Day13.LineMismatches | src/day13.js:18-22 | Two lines differ in at most as many cells as are compared |
| Day13.LineMismatchesGrow | src/day13.js:18-22 | Comparing more cells never lowers the mismatch count |
| Day13.PairMismatchesGrow | src/day13.js:16-30 | Comparing more pairs never lowers the mismatch count, so the early exit on too many errors is sound |
| Day13.ScanPair | src/day13.js:18-26 | The inner loop adds the pair's mismatches, or stops early exactly when the running count would pass the allowed corrections |
| Day13.IsReflection | src/day13.js:10-33 | True exactly when the mismatches across the line, over all pairs that fit, number exactly the allowed corrections |
| Day13.FindReflection | src/day13.js:35-42 | Returns the number of lines before the first line that reflects, or nothing exactly when no line does |
| Day13.EvalPatternScore | src/day13.js:44-59 | The score is the column count left of the first vertical line, else a hundred times the row count above the first horizontal line, else 0; a pattern without rows fails on its first row |
| Day13.NoLineMismatches | src/day13.js:18-22 | No mismatches between two lines exactly when they agree on every compared cell |
| Day13.NoPairMismatches | src/day13.js:16-30 | No mismatches over the pairs exactly when every mirrored pair of cells agrees |
| Day13.PerfectReflection | src/day13.js:10-33 | Without smudges a line reflects exactly when every mirrored pair of lines that fits agrees cell for cell |
| Day14.Slide | src/day14.js:13-20 | A rolling rock stops on the grid, on its start or on a '.', with the edge or a cell other than '.' next in the tilt's direction |
| Day14.OnlyRocksMovedTrans | src/day14.js:11-21 | Two rounds of rock moves together still move only rocks |
| Day14.MoveRockFacts | src/day14.js:11-21 | Moving a rock only clears its start and puts it where it stops; every other cell, cube rocks included, keeps its glyph, and the rock count is unchanged |
| Day14.TiltPlatform | src/day14.js:23-61 | Any of the four tilts keeps the number of round rocks and changes only cells that are '.' or 'O' before and after |
| Day14.NorthMoveKeepsSettled | src/day14.js:24-30 | After the rock in row-major order is moved north, no rock visited so far has '.' directly above it |
| Day14.SlideNorthPath | src/day14.js:13-27 | A rock rolling north stays in its column, never goes down, and passes only '.' cells |
| Day14.SettledRockStays | src/day14.js:13-18 | A rock against the north edge or under a non-'.' cell is left where it is |
| Day14.TiltNorth | src/day14.js:23-31 | Tilting north keeps the rocks and cube rocks, leaves no rock with '.' directly above it, and leaves an already tilted platform unchanged |
| Day14.CountRocks | src/day14.js:67-71 | Counts the round rocks in a row within the first row's width |
| Day14.EvalNorthBeamLoad | src/day14.js:63-74 | The load sums, over the rows, the row's rock count weighted by its distance from the south edge |
| Day14.LoadBounds | src/day14.js:63-74 | The load is at least the number of rocks and at most the row count times it |
| Day14.JoinSplit | src/day14.js:3-9 | Joining the split lines of a text with newlines gives the text back |
| Day14.SplitLine | src/day14.js:4 | Splitting a newline-free line followed by a newline and more text gives the line followed by the rest's lines |
| Day14.SplitJoin | src/day14.js:3-9 | Splitting the joined rows of a newline-free platform gives the rows back: the history key identifies the platform |
| Day14.FirstResultOccurrence | src/day14.js:100-102 | The cycle chosen lies in the recorded range from the first repeated cycle up to the current cycle |
| Day14.OccurrenceMatchesBillion | src/day14.js:100-102 | The chosen cycle agrees with the billionth modulo the period, so it shows the same platform |
| Day16.Move | src/day16.js:77-84 | The direction is brought into 0..3 (for any direction from -4 up, as JavaScript's `%` does) and the beam moves one tile that way: 0 right, 1 down, 2 left, 3 up |
| Day16.NewDirsCount | src/day16.js:38-61 | A splitter hit across its line splits the beam in two, every other known tile sends it on one way, '.' keeps its direction, and any other character stops it |
| Day16.MirrorsReflect | src/day16.js:38-61 | '/' and '\' turn the beam by the mirror's quarter turn in every direction |
| Day16.ReachableStep | src/day16.js:63-65 | A successor on the grid of a state a beam reaches is reached too |
| Day16.WalkStaysMarked | src/day16.js:24-66 | A set of states closed under the beam's moves holds every state reachable from a state it holds |
| Day16.DropKeepsClosed | src/day16.js:27-33 | Dropping a head that is off the grid or already marked keeps the marks closed up to the pending heads |
| Day16.MarkKeepsClosed | src/day16.js:35-65 | Marking a head and pushing its successors keeps the marks closed up to the pending heads |
| Day16.DropHeadInv | src/day16.js:25-33 | Dropping a head keeps the loop's invariant |
| Day16.MarkHeadInv | src/day16.js:25-65 | Marking a head and pushing its successors keeps the loop's invariant |
| Day16.PropagateStep | src/day16.js:25-65 | One pop either marks a new state or shortens the stack, so the loop ends |
| Day16.PropagateClosed | src/day16.js:21-66 | The loop ends with only reachable states marked, the start marked when it is on the grid, and the marks closed under the beam's moves |
| Day16.Propagate | src/day16.js:21-66 | The marked states are exactly the states a beam from the start reaches without leaving the grid |
| Day16.CountEnergized | src/day16.js:68-74 | The count is the number of tiles holding at least one mark, at most the grid's size |
| Day16.GetEnergizedTileCount | src/day16.js:20-75 | The count is the number of tiles a beam from the start passes through: at least 1 when the start is on the grid, and at most the grid's size |
| Day16.BeamStarts | src/day16.js:10-18 | Two entry beams per row, from the left heading right and from the right heading left, then two per column, from the top heading down and from the bottom heading up |
| Day16.MaxEnergized | src/day16.js:87 | The maximum over the beams is reached by one of them and no beam energises more |
| Day16.Part2 | src/day16.js:10-18 | Part 2 is the most tiles any entry beam energises |
| Day21.FindStart | src/day21.cpp:47-56 | Returns the first 'S' in row-major order, or nothing, where the original fails its assertion, exactly when there is none |
| Day21.FindStartFrom | src/day21.cpp:48-54 | From any point of the scan, returns the first 'S' at or after it, or nothing exactly when none follows |
| Day21.ValidIsValidPos | src/day21.cpp:68-71 | The set of valid plots holds exactly the positions on the map, within their row, that are not '#' |
| Day21.EnqueueOne | src/day21.cpp:97-102 | Enqueuing a valid unseen neighbour marks it seen and appends it with one step fewer |
| Day21.EnqueueNeighbours | src/day21.cpp:92-103 | Exactly the newly seen positions are appended, each a valid neighbour one step away with one step fewer, and the queue before them is unchanged |
| Day21.ExpandKeepsSearchState | src/day21.cpp:92-103 | Expanding a frontier entry keeps the search invariant, and either marks a new valid plot or changes nothing |
| Day21.NeighbourReachable | src/day21.cpp:93-102 | A neighbour entered with one step fewer stays within the distance and parity the step budget allows |
| Day21.EvenEntryCountable | src/day21.cpp:84-86 | An entry recorded with an even remaining count is the start or a valid plot within the budget, of the budget's parity |
| Day21.DrainStep | src/day21.cpp:80-103 | One pop keeps the search invariant, only adds to the answer, and either marks a new valid plot or shortens the queue, so the search ends |
| Day21.Drain | src/day21.cpp:80-104 | Draining the queue only adds countable plots to the answer |
| Day21.SearchFromStart | src/day21.cpp:78-104 | The search from the start records only countable plots |
| Day21.CountFields | src/day21.cpp:73-106 | The count is the size of the recorded set. The set holds only the start or valid plots, each within the step budget and of its parity. The start is recorded exactly when the budget is even, and a budget of 0 records the start alone |
| Day21.StartCountedByParity | src/day21.cpp:84-86 | The start ends up recorded exactly when the budget is even |
| Day21.CountedAreValid | src/day21.cpp:97 | Recorded plots are valid, except possibly the start |
| Day21.MapCountsShape | src/day21.cpp:119-122 | The even-map count is the square of an even number and the odd-map count the square of an odd number: radius² and (radius+1)² in the order the radius's parity gives |
| Day21.Part2 | src/day21.cpp:110-152 | Part 2 succeeds exactly when there is a start, the garden is square with the start in its middle and the step count ends on a garden edge (the original's assertions), and the garden is between 2 and the step count in size (the model's own bound, see "Left out") |
| Day22.ExtentsOrdered | src/day22.cpp:33-43 | Each lowest/highest pair is ordered and is made of the two end cubes' coordinates |
| Day22.OverlapProperties | src/day22.cpp:45-52 | Footprint overlap is symmetric and reflexive and ignores height, so moving a brick vertically does not change what it overlaps |
| Day22.RestingZIsLeastFree | src/day22.cpp:80-85 | A brick comes to rest above every overlapping earlier brick, at the ground level 1 or directly on top of one of them |
| Day22.LoweredShape | src/day22.cpp:86-88 | Lowering keeps x, y and the vertical extent and puts the bottom at the requested height |
| Day22.DropBricks | src/day22.cpp:78-90 | Every brick keeps its shape and ends with its bottom at the resting height over the bricks dropped before it |
| Day22.RestingZSameShape | src/day22.cpp:81-85 | The resting height depends only on the brick's footprint, not on its current height |
| Day22.BuildSupportMap | src/day22.cpp:58-73 | j is recorded as a supporter of i, and i as held up by j, exactly when j comes earlier and i's bottom sits one above j's top with overlapping footprints |
| Day22.BuiltMapOrdered | src/day22.cpp:64-72 | The built relation only points from later bricks to earlier ones and reads the same from both sides |
| Day22.SupportMapConsistent | src/day22.cpp:66-70 | The two lists agree, and a supporter is earlier and has its top directly below the supported brick's bottom |
| Day22.CanBeRemoved | src/day22.cpp:95-101 | A brick can be removed exactly when every brick it holds up has at least two supporters |
| Day22.RemovableBelowStep | src/day22.cpp:94-105 | Considering one more brick raises the number of removable bricks by one exactly when that brick is removable |
| Day22.Part1 | src/day22.cpp:92-107 | The result is the number of removable bricks |
| Day22.AllSupportersFalling | src/day22.cpp:124-130 | The check succeeds exactly when every supporter of the brick is already falling |
| Day22.ReleaseSupported | src/day22.cpp:119-136 | Only bricks that fall in the chain reaction are added; each added brick is queued; every brick held up by the current one either falls or still has a supporter that is standing or not yet processed |
| Day22.SearchStep | src/day22.cpp:116-137 | One dequeue-and-release step keeps the search invariant: processed bricks have had everything they hold up settled |
| Day22.FallsAreReached | src/day22.cpp:116-137 | Once the queue is empty, every brick of the chain reaction is in the falling set |
| Day22.CountBrickFalls | src/day22.cpp:109-140 | The falling set is exactly the chain reaction of the removed brick (the brick itself plus every brick that rests on something and whose supporters all fall), and the count leaves the removed brick out |
| Day22.Part2 | src/day22.cpp:142-148 | The result is the sum, over every brick, of the number of other bricks in its chain reaction |
| Day23.WalkableIsLegal | src/day23.cpp:59-64 | A position is walkable exactly when it lies inside the maze and is not forest |
| Day23.FindFirstPathField | src/day23.cpp:50-57 | The result is the first '.' of the row; there is none exactly when the row holds no '.', the case the original asserts against |
| Day23.FirstPathFieldFrom | src/day23.cpp:51-55 | The first '.' at or after the given index, or none when no later character is '.' |
| Day23.CountLegalNeighbours | src/day23.cpp:75-83 | The count is the number of the four neighbours that are legal waypoints |
| Day23.VisitCell | src/day23.cpp:71-87 | Examining one cell appends it exactly when it is a junction |
| Day23.ScanRow | src/day23.cpp:70-88 | Scanning a row appends exactly that row's junctions, left to right |
| Day23.CollectBranchPositions | src/day23.cpp:66-90 | The given vertices are kept as a prefix, followed by exactly the junctions (walkable cells with more than two walkable neighbours) in row-major order |
| Day23.GetLegalDeltas | src/day23.cpp:101-118 | All four moves on plain path or in part 2; in part 1 only the slope's own direction on a slope, and nothing on any other cell |
| Day23.Part2DeltasIncludePart1 | src/day23.cpp:101-118 | Ignoring slopes never removes a move |
| Day23.PushOne | src/day23.cpp:144-148 | Pushing a legal unseen cell marks it seen and stacks it once, one step further than the current cell |
| Day23.PushNeighbours | src/day23.cpp:140-149 | Every legal neighbour along an allowed move ends up seen; the newly seen cells are exactly the newly stacked ones, each such a neighbour, stacked once with one more step |
| Day23.RecordEdgeKeepsState | src/day23.cpp:135-138 | Recording a vertex reached after at least one step keeps the walk invariant and never overwrites an earlier edge |
| Day23.ExpandKeepsState | src/day23.cpp:131-150 | Expanding the popped cell keeps the walk invariant, and the set of unseen walkable cells shrinks unless nothing new was seen |
| Day23.WalkFrom | src/day23.cpp:123-152 | Every edge out of a vertex leads to another vertex and is between 1 and the number of walkable cells long |
| Day23.BuildDensedGraph | src/day23.cpp:120-156 | The graph has exactly the given vertices as keys; its edges lead to other vertices and have lengths between 1 and the number of walkable cells |
| Day23.ExtendSearchPath | src/day23.cpp:175-183 | Putting the current vertex in front of a simple path out of an unseen neighbour gives a simple path whose weight adds the connecting edge |
| Day23.RestrictSearchPath | src/day23.cpp:167-184 | Every simple path out of the current vertex is such an extension of a simple path out of its second vertex |
| Day23.PathsThroughTarget | src/day23.cpp:175-183 | The recursive call's verdict on a neighbour decides exactly which paths leave through that neighbour and bounds their weight |
| Day23.FindLongestPathRec | src/day23.cpp:158-186 | valid holds exactly when a simple path to the end exists that avoids the seen vertices; the result is the greatest weight of such a path, or 0; the seen set is restored |
| Day23.FindLongestPath | src/day23.cpp:188-196 | An error exactly when no simple path from start to end exists; otherwise the greatest weight of one |
| Day23.Solve | src/day23.cpp:198-212 | The answer is an error when the first or last row holds no path field |
| Day25.AdjAddEdge | src/day25.py:8-9 | Adding a connection lists the target once more under the source and the source once more under the target, and changes nothing else |
| Day25.AddEdgeSymmetric | src/day25.py:8-9 | Adding a connection in both directions keeps every connection listed equally often from either end |
| Day25.AddLineSymmetric | src/day25.py:7-9 | Adding all of one line's connections keeps the graph undirected |
| Day25.BuildGraphSymmetric | src/day25.py:4-9 | The graph read from any lines is undirected, and every node listed as a neighbour has a list of its own |
| Day25.SymmetricIsClosed | src/day25.py:4-9 | In an undirected graph every neighbour has an adjacency list |
| Day25.WalkExtend | src/day25.py:29-30 | A walk to a node followed by an edge to one of its neighbours is a walk to that neighbour |
| Day25.WalksStayInClosedSet | src/day25.py:62-71 | No walk from inside a set closed under the edges leaves it |
| Day25.GetShortestPath | src/day25.py:14-30 | A returned path is a walk of edges from start to end (empty when they coincide); no path means end is unreachable; on a graph where every node has a list the search never fails on a missing key |
| Day25.PathStep | src/day25.py:19-30 | One pop fails exactly on an unseen node without a list; otherwise it keeps every queued path a walk and the seen set closed up to the queue, and makes progress |
| Day25.SkipKeepsQueue | src/day25.py:24-25 | Dropping an already seen front node keeps every queued path a walk and loses no waiting neighbour |
| Day25.ExpandWalks | src/day25.py:29-30 | Queuing the neighbours of the front node, each with its path extended by the connecting edge, keeps every queued path a walk |
| Day25.ExpandCloses | src/day25.py:27-30 | After expanding the front node, it is seen and all of its neighbours are seen or queued |
| Day25.WalksAvoidEnd | src/day25.py:18-30 | When the queue runs out with the start seen and the end not, no walk leads from start to end |
| Day25.ConnectedStep | src/day25.py:70-71 | A neighbour of a reachable node is reachable |
| Day25.SkipKeepsSearch | src/day25.py:65-66 | Dropping an already seen front node keeps every seen or queued node reachable and the seen set closed up to the queue |
| Day25.VisitKeepsSearch | src/day25.py:68-71 | Visiting the front node and queuing its neighbours keeps every seen or queued node reachable and the seen set closed up to the queue |
| Day25.CountConnectedNodes | src/day25.py:58-73 | The count is the number of nodes reachable from the start; on a graph where every node has a list it succeeds with a count between 1 and the number of nodes |
| Day25.CountStep | src/day25.py:63-71 | One pop fails exactly on an unseen node without a list; otherwise it keeps the search invariant and makes progress |
| Day25.SeenIsReachable | src/day25.py:62-73 | A closed set of reachable nodes containing the start is exactly the reachable part |
| Day15.Code | src/day15.js:5-6 | The code of a character is the character itself below 0x10000 and otherwise a UTF-16 code unit, always below 0x10000 |
| Day15.PolyAppend | src/day15.js:5-9 | One more character adds its code to the polynomial and multiplies by 17 |
| Day15.HashAlgorithm | src/day15.js:3-11 | The loop's value is the base-17 polynomial of the character codes reduced modulo 256; the empty string hashes to 0 |
| Day15.Hash | src/day15.js:3-11 | A hash is below 256 |
| Day15.HashAppend | src/day15.js:5-9 | Hashing one more character adds its code to the previous hash, multiplies by 17 and reduces modulo 256 |
| Day15.Before | src/day15.js:15-23 | The text before the first separator: a prefix free of it, followed by the separator when there is one, and the whole text otherwise |
| Day15.LeadingDigits | src/day15.js:19 | The longest prefix made of decimal digits |
| Day15.ParseStep | src/day15.js:13-27 | A step containing '=' inserts the lens labelled by the text before its first '='; any other step removes the lens labelled by the text before its first '-'; a label never contains '=' |
| Day15.DecimalValue | src/day15.js:19 | Reading the decimal digits of a number gives the number back |
| Day15.ParseStepRoundTrip | src/day15.js:13-27 | Writing `label=focal` or `label-` and parsing it gives back the same insertion or removal, for labels without '=' or '-' |
| Day15.InsertLens | src/day15.js:29-37 | A new label goes to the end; a present label has its first lens replaced in place |
| Day15.RemoveLens | src/day15.js:39-46 | The first lens with the label is cut out and the others keep their order; a box without the label is unchanged |
| Day15.LensOpsKeepLabelsDistinct | src/day15.js:29-46 | Inserting and removing keep labels distinct within a box; after removal the label is gone, after insertion the new lens is in the box |
| Day15.ReinsertGoesLast | src/day15.js:29-46 | Removing a label and inserting it again puts its lens at the back |
| Day15.InsertIdempotent | src/day15.js:29-37 | Inserting the same lens twice is the same as inserting it once |
| Day15.EmptyBoxes | src/day15.js:53 | There are 256 boxes and all start without lenses |
| Day15.ApplyStep | src/day15.js:54-63 | A step changes only the box its label hashes to, by inserting or removing the lens there |
| Day15.ApplyStepKeepsFiled | src/day15.js:54-63 | After a step every lens is still in the box its label hashes to and no box holds a label twice |
| Day15.ApplyStepsKeepsFiled | src/day15.js:54-63 | The same holds after any sequence of steps |
| Day15.HashSum | src/day15.js:50 | Part 1 adds up one hash per step, so it is at most 255 per step |
| Day15.SlotUpdatePower | src/day15.js:71-73 | Replacing the lens in one slot changes the box's power by the slot's weight times the change in focal length |
| Day15.InsertLensPower | src/day15.js:29-37 | A new lens adds its weight at the back slot; a replaced lens trades its old focal length for the new one at the same slot |
| Day15.AddBoxPower | src/day15.js:71-73 | The slot loop adds exactly the box's focusing power |
| Day15.FocusingPower | src/day15.js:65-74 | The box loop yields the total focusing power of all boxes |
| CText.DigitRunEnd | src/day3.c:78-80 | The end of the digit run starting at an index: every character before it is a digit, and it is the end of the string or a non-digit |
| CText.FormatNatValue | src/day3.c:76 | Reading the decimal notation of a number gives the number back |
| CText.AtoiFormat | src/day3.c:76 | `atoi` at the start of a written number followed by a non-digit reads exactly that number, and the digit run ends right after it |
| Common.TruncRem | src/day16.js:78-79 | JavaScript's `%`: the remainder is smaller than the divisor in magnitude and takes the sign of the dividend |
| Grids.SetCell | src/day14.js:12-16 | Writing one cell changes exactly that cell and keeps the grid's shape |
| Grids.SetCellCount | src/day14.js:12-16 | Writing one cell changes a tile's count by at most the one cell: the old cell leaves the count and the new one joins it |

## Left out

- Reading input files, command-line arguments and printing, in every `main` and top-level script, together with `src/common.h`, which only opens files. Each model starts from text already in memory.
- `src/day6.py` and `src/day24p1.cpp` compute with floating point (square roots, line intersections with a tolerance), which this model does not cover.
- `src/day24p2.py` hands its equations to an external symbolic solver whose code is not part of this model.
- Fixed-width integer overflow (C `int32_t` and `size_t`, C++ `std::size_t`, Rust `usize` apart from the subtraction in day 11, JavaScript numbers): all integers are unbounded.
- `atoi`, `std::stoi` and `parseInt` read only a run of decimal digits. Leading whitespace and signs are not modelled, and in JavaScript a step whose focal length has no digit is an error instead of `NaN`.
- The hash functors of day 21 and day 23 only choose buckets; positions are compared by coordinates, so sets and maps of positions are used directly.
- The edge-frequency cut heuristic of day 25 (`src/day25.py:33-55`, including the sort of edge counts) and the final product are global script code and are not modelled; only graph construction and the two searches are.
- The spin-cycle loop of day 14 that runs until a platform string repeats (`src/day14.js:86-98`) is not modelled; single tilts and the index arithmetic that follows the loop are.
- Day 7 sorts hands with Python's `sorted` and parses lines in the script; the winnings take an order sorted by the hand comparison as given.
- Day 10: `get_side_tiles` and the walk in `main` that follows the loop and counts left turns are not modelled; every helper that walk calls is.
- Day 11: the loop over galaxy pairs in `main` is not modelled; the distance of one pair is.
- Day 22: parsing brick lines and sorting the bricks by lowest z in `main` are not modelled; dropping takes any brick order.
- Day 16: marks are kept as a set of (row, column, direction) beams, not per-cell direction lists.
- Day 15: a box the script has not created yet is modelled as an empty box. The loop skips undefined boxes, so the focusing power is the same.
- Day2.GameIsItsDraws: no lemma writes a whole game line and parses it back. One draw is written and read back (`GetDrawAmountsRoundTrip`), and the line scanners each have their own "finds the first" contract.
- Day2.GetDrawAmounts: failure is characterised one entry at a time (`DrawStepReads`); there is no single statement of exactly when a whole draw fails.
- Day5.ApplyRangesKeepsLength: the total length is preserved only for mappings with non-negative sizes. A negative size makes the below and above parts overlap.
- Day8.Solve: takes a step budget (`fuel`), because the original loop does not terminate when the goal is never reached. Running out of budget is reported as its own error, and the contract states that the goal was missed up to that point.
- Day8.Lcm: proves that the result times the gcd is the product and that both arguments divide it. It does not prove that no smaller common multiple exists.
- Day21.CountFields: proves that every counted plot is the start or a valid plot, within Manhattan distance of the step count and of its parity. It proves neither that the plot is reachable through garden plots nor that every such plot is counted.
- Day21.Part2: the model also refuses gardens smaller than 2 rows or larger than the step count, which the original does not check: a 1×1 garden "S" passes its assertions and `map_size / 2 - 1` then wraps around. The value is the original's arithmetic on `Fields` counts, with no independent statement about plots reachable in the infinite garden.
- Day12.GetCount: takes the record as a row and a list of block lengths. Splitting the line at ' ' and parsing the numbers, which panic on malformed input (`src/day12.rs:18-24`), are not modelled.
- Day25.BuildGraphSymmetric: takes (source, targets) pairs. Splitting each line at ": ", which raises `ValueError` without one, and the whitespace handling of `strip().split()` (`src/day25.py:6-7`) are not modelled.
- Day22.Part2: takes the support map in the form `BuildSupportMap` produces it (`Ordered`, proved by `BuiltMapOrdered`).
- Day23.WalkFrom: proves that each edge leads to another vertex with a length between 1 and the number of walkable cells. It does not prove that the length is that of a corridor in the maze.
- Day23.BuildDensedGraph: has the same bounds as `WalkFrom`, with no corridor-length statement.
- Day23.Solve: states only the error cases. Its result is `FindLongestPath` on the graph `BuildDensedGraph` builds.
- Day25.GetShortestPath: proves that the returned path is a walk from start to end and that "no path" means unreachable. It does not prove that the path is a shortest one.

## Findings

| source | as written | input that shows it | evidently intended | confidence | as-written member | corrected member |
|---|---|---|---|---|---|---|
| src/day3.c:93-103 | `get_serial_number_containing` checks `index == 0` before checking for a non-digit, so a number starting at index 1 after a non-digit at index 0 is read from index 0 | the schematic ".5*": the gear at index 2 collects 0 instead of 5 | walk left to the first non-digit and read the number after it, and read from index 0 only when the run starts there | not executed | Day3.SerialContainingAsWritten, Day3.SerialAtIndexOneIsLost, Day3.Part2LosesIndexOne | Day3.SerialContaining, Day3.SerialIsItsRun, Day3.Part2WalksAgree |
