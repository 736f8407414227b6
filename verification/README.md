# Puzzle solvers, modelled in Dafny

The repository is a set of seven independent command-line puzzle solvers
(`day1` … `day7`), each reading a text file and printing one number, each
with a "follow-up" variant. This project models the logic of every solver
in Dafny and proves what each computes:

- **Day 1**, a safe's dial: the rotations are parsed and the dial is turned
  from 50. The two passwords are proved equal to click-by-click references
  over the unreduced walk. Part one counts rotations that end on 0; the
  follow-up counts every click that shows 0.
- **Day 2**, invalid product ids: ids that are a digit string written twice,
  or (follow-up) any chain written at least twice. The ranges are parsed
  from comma-separated text and searched. Two defects are recorded under
  "Findings"; each has a corrected definition that is proved complete and
  sound.
- **Day 3**, battery banks: the greedy two-battery pick is proved to give
  the best pair 10·a + b with a before b.
- **Day 4**, rolls of paper on a grid. Part one counts the rolls with fewer
  than four neighbouring rolls, row by row. The follow-up links neighbours
  and removes accessible rolls round by round until nothing changes. That
  peeling is proved to reach the same result for every map iteration order.
  It removes exactly the rolls outside the largest set in which every roll
  keeps at least four neighbours.
- **Day 5**, fresh ingredient ids: intervals are parsed, sorted and merged.
  The merged set is proved to cover exactly the original ids, with no two
  intervals touching. Both answers (fresh products, fresh ids) follow from
  that cover.
- **Day 6**, a worksheet read from the end of the file. The last non-blank
  line holds the operators, and the lines above hold the operands. The
  answer is proved to be the sum of each column's sum or product.
- **Day 7**, a tachyon manifold. The number of splits and the number of
  paths are proved equal to references over the rows of splitters, for
  every set iteration order.

Shared modules model the Go library calls the solvers rely on:

- `strconv.Atoi`/`Itoa` (`Decimal`).
- `strings.Split`, `strings.Fields` and `strings.Repeat` (`Text`).
- Go's truncating `/` and `%` (`GoInt`).
- An error-or-value `Result` for every fatal path (`Wrappers`).

Fatal errors (`log.Fatal`, `panic`, an index out of range) are `Fail`
results. Input files are sequences of lines. Goroutine fan-out is replaced
by sequential sums, because every result channel is only ever summed or
merged into a set. Go map and set iteration order is a parameter
(`pick`/`order`/`listing`), and each theorem holds for every order. One
answer does depend on the order: Day 5's follow-up when an interval is
inverted (lower above upper). `Day5.InvertedListingMatters` shows two
listings of the same intervals that give 5 and 11.

Three facts about the code that the model follows:

- `Coordinates.Adjacent` yields the neighbours with non-negative
  coordinates among the eight around a cell: 3, 5 or 8 of them.
- In Day 7, a line without a splitter is skipped by `continue` before
  `rowCount++`. So the splitter rows are stored compacted, and quiet lines
  do not count as rows. This is proved harmless:
  `Day7.QuietRowsSplitNothing` and `Day7.QuietRowsAddNoRoutes`.
- In Day 4, `readMap` ignores every rune other than `@`.

## Model

| member | source | states |
|---|---|---|
| Decimal.Digits | cmd/day2.go:58 | `strconv.Itoa` of a non-negative number gives canonical decimal text (no leading zero) whose value is the number |
| Decimal.Itoa | cmd/day2.go:58 | the text is never empty and starts with `-` exactly when the number is negative |
| Decimal.Atoi | cmd/day2.go:70 | `strconv.Atoi` succeeds exactly on an optional sign followed by at least one digit, and on digits alone gives their value |
| Decimal.AtoiOrZero | cmd/day1.go:110 | an `Atoi` whose error is dropped: the parsed number, or 0 on a syntax error |
| Decimal.AtoiItoa | cmd/day2.go:79-82 | reading back printed text gives the number, for every integer |
| Decimal.DigitsValue | cmd/day2.go:58 | canonical digit text is the printing of its value |
| Decimal.DigitsLength | cmd/day2.go:96 | a number printed with d digits lies below 10^d, and at or above 10^(d-1) when d > 1 |
| Decimal.DigitsExactly | cmd/day2.go:124-128 | a number from 10^(t-1) up to 10^t - 1 is printed with exactly t digits |
| Decimal.ValueAppend | cmd/day2.go:66 | the value of concatenated digit texts is the first value shifted by the second's length plus the second value |
| Text.Split | cmd/day2.go:191 | `strings.Split` on a one-rune separator: one more part than separators, no part holds the separator, and joining the parts gives the text back |
| Text.SplitJoin | cmd/day5.go:138 | splitting undoes joining when no part holds the separator |
| Text.SplitFirst | cmd/day2.go:214 | a separator-free first part is split off exactly |
| Text.Fields | cmd/day6.go:60 | `strings.Fields`: every field is a non-empty run without spaces, and the fields concatenated are the text with its spaces dropped |
| Text.FieldsSpace | cmd/day6.go:60 | a leading space starts no field |
| Text.FieldsWord | cmd/day6.go:60 | a run of non-space characters followed by a space or the end of the text is one whole field, so the fields are the maximal runs |
| Text.FieldsJoin | cmd/day6.go:60 | splitting words joined by single spaces gives the words back |
| Text.RepeatAdd | cmd/day2.go:154 | repeating a text a times then b times is repeating it a + b times |
| Text.RepeatLength | cmd/day2.go:154 | `strings.Repeat(s, n)` has length \|s\|·n |
| GoInt.Rem | cmd/day1.go:66 | Go's `%` by a positive divisor: smaller than the divisor in size and never of the opposite sign to the dividend |
| GoInt.QuotRem | cmd/day1.go:59-66 | Go's quotient and remainder put the dividend back together |
| GoInt.QuotRemUnique | cmd/day1.go:59-66 | those two properties fix Go's truncating division completely |
| GoInt.RemResidue | cmd/day1.go:45 | `x % 100 == 0` in Go holds exactly when 100 divides x |
| Day1.RotationFromRune | cmd/day1.go:88-97 | `L` and `R` are the only runes accepted, and the rotation reads back as its rune; any other rune is fatal |
| Day1.ParseInstruction | cmd/day1.go:108-115 | an instruction parses exactly when the line starts with `L` or `R`; the distance is `Atoi` of the rest, 0 on an error |
| Day1.ParseFormat | cmd/day1.go:108-115 | parsing the written form of an instruction gives the instruction back |
| Day1.ReadRotations | cmd/day1.go:117-135 | one instruction per line, in order; the first bad line is fatal |
| Day1.Crossings | cmd/day1.go:49-57 | the two sign tests of the follow-up never both fire |
| Day1.Step | cmd/day1.go:36-66 | after a move the reduced position stays between -99 and 99 and keeps the sign of the unreduced one; the password never decreases |
| Day1.Password | cmd/day1.go:33-68 | the password after all instructions is never negative |
| Day1.VisitsHits | cmd/day1.go:59-63 | the clicks that show 0 between two positions are counted by a closed form with floor division |
| Day1.HitsShift | cmd/day1.go:66 | reducing a position by whole turns does not change what a move passes |
| Day1.ClicksVisits | cmd/day1.go:48-64 | from a reduced position, the follow-up's sign test plus truncated quotient counts exactly the clicks that show 0 |
| Day1.TurnLandings | cmd/day1.go:36-68 | the reduced dial stays a whole number of turns from the unreduced walk, and part one counts the walk's landings on a multiple of 100 |
| Day1.TurnPasses | cmd/day1.go:36-68 | likewise, the follow-up counts every click of the walk that shows 0 |
| Day1.PasswordLandings | cmd/day1.go:33-47 | part one's password is the number of rotations that leave the dial at 0 |
| Day1.PasswordPasses | cmd/day1.go:33-64 | the follow-up's password is the number of clicks, over all rotations, at which the dial shows 0 |
| Day1.Day1RunAnswers | cmd/day1.go:24-68 | `day1run` answers exactly when every line starts with `L` or `R`: the rotations that end on 0, or with the follow-up flag every click that shows 0; otherwise it fails with the reading error |
| Day2Ids.IdRangeFromString | cmd/day2.go:190-201 | a piece is a range exactly when it holds one `-`, fatal otherwise; its bounds are `Atoi` of the two sides, 0 on an error, so never negative |
| Day2Ids.IdRangeFormat | cmd/day2.go:190-201 | reading back a written range `lower-upper` gives the range |
| Day2Ids.ParseRanges | cmd/day2.go:203-224 | every comma-separated piece of every line becomes one range, in order; the first piece without exactly one `-` is fatal |
| Day2Halves.TwiceValue | cmd/day2.go:66 | a half written twice has the value half·10^(its length) + half |
| Day2Halves.AtoiTwice | cmd/day2.go:81-82 | `Atoi` of a number printed twice is that number doubled in writing, and 0 for a negative number |
| Day2Halves.InvalidIsTwice | cmd/day2.go:64-66 | every invalid id is its own first half written twice |
| Day2Halves.TwiceIsInvalid | cmd/day2.go:64-66 | a positive half written twice is an invalid id, with that half |
| Day2Halves.TwiceBounds | cmd/day2.go:60-66 | a positive half of a digits written twice has exactly 2a digits: it lies from 10^(2a-1) up to below 10^(2a) |
| Day2Halves.TwiceMonotone | cmd/day2.go:78-86 | writing a larger half twice gives a larger id, so the candidates increase |
| Day2Halves.HalfOfTwice | cmd/day2.go:64-66 | both halves of an id written twice give back the half |
| Day2Halves.HalfGrows | cmd/day2.go:78-86 | every pass moves to a larger half, so the search ends |
| Day2Halves.Scan | cmd/day2.go:51-93 | the search loop of `reportInvalidIds`: every id it reports lies in the range |
| Day2Halves.FirstHalfOdd | cmd/day2.go:56-62 | for a lower bound of odd length, any positive half with fewer than half its digits writes an id below the bound |
| Day2Halves.FirstHalfEven | cmd/day2.go:56-66 | for a lower bound of even length, any positive half below the bound's own first half writes an id below the bound |
| Day2Halves.IntendedHalfFirst | cmd/day2.go:56-66 | every positive half whose doubled id reaches the lower bound is at least the corrected first half |
| Day2Halves.ScanIsHalfScan | cmd/day2.go:55-87 | the corrected loop visits each half from the first one upwards |
| Day2Halves.HalfScanSound | cmd/day2.go:68-77 | every id reported from a half on is invalid, in the range, and has at least that half |
| Day2Halves.HalfScanComplete | cmd/day2.go:68-87 | every invalid id of the range with at least that half is reported |
| Day2Halves.HalfScanIncreasing | cmd/day2.go:78-86 | the reported ids increase, so none is counted twice |
| Day2Halves.IntendedIds | cmd/day2.go:51-93 | the corrected search reports, in increasing order, exactly the invalid ids of the range |
| Day2Halves.AsWrittenAgrees | cmd/day2.go:55-87 | from an even-length lower bound the loop as written and the corrected loop report the same ids |
| Day2Halves.EvenLowerAsIntended | cmd/day2.go:51-93 | part one as written is correct for a range whose lower bound has an even number of digits |
| Day2Halves.NoThreeDigitInvalid | cmd/day2.go:60-62 | no three-digit number is an invalid id |
| Day2Halves.OddLowerCountsNonRepeat | cmd/day2.go:60-77 | for the range 100-200 the code reports 101, which is no id written twice, while the corrected search reports nothing |
| Day2Chains.RepeatValue | cmd/day2.go:154-155 | a chain written k times has the chain's value times the repunit of its length |
| Day2Chains.ChainText | cmd/day2.go:154-155 | a t-digit chain written k times is the printing of chain·repunit, read back by `Atoi` |
| Day2Chains.ChainStep | cmd/day2.go:153-170 | one pass of the chain loop: the candidate is reported when in range, the loop stops above the upper bound or at the last chain |
| Day2Chains.ChainPrefix | cmd/day2.go:142-155 | an id made of one t-digit chain repeated k times is its first t digits, a t-digit number, times the repunit |
| Day2Chains.ChainScanMembers | cmd/day2.go:144-170 | the chain loop from 10…0 to 9…9 reports exactly the in-range ids made of one t-digit chain repeated k times |
| Day2Chains.FirstChainText | cmd/day2.go:145-150 | the first chain is `1` followed by t-1 zeros, the printing of 10^(t-1) |
| Day2Chains.MaxChainValue | cmd/day2.go:146-151 | the last chain, t nines, reads as 10^t - 1 |
| Day2Chains.LengthMembers | cmd/day2.go:136-171 | for one id length divisible by t, exactly the in-range ids of that length made of a repeated t-digit chain are reported |
| Day2Chains.LengthScanMembers | cmd/day2.go:134-173 | the loop over id lengths reports exactly the in-range ids counted at some length from the start length on |
| Day2Chains.ForTargetMembers | cmd/day2.go:119-179 | `reportInvalidIdsForTargetChainLength` reports exactly the in-range ids counted at some id length from max(lower's length, 2) on, and nothing unless the upper bound has at least 2t digits |
| Day2Chains.ForTargetAsWritten | cmd/day2.go:131-171 | as written, a chain length t also reports every t-digit id in the range (one repetition) whenever t >= 2 and the upper bound has at least 2t digits |
| Day2Chains.ForTargetIntended | cmd/day2.go:119-179 | corrected to at least two repetitions, it reports exactly the in-range ids made of a t-digit chain written at least twice |
| Day2Chains.GatheredFrom | cmd/day2.go:101-109 | every id gathered came from some chain length from 1 to half the upper bound's length |
| Day2Chains.GatheredReaches | cmd/day2.go:101-109 | every id reported for such a chain length is gathered |
| Day2Chains.GatheredIntended | cmd/day2.go:95-109 | with the correction and a non-negative lower bound, the gathered ids are exactly the in-range ids written as some chain at least twice |
| Day2Chains.AnyChainLengthOrderFree | cmd/day2.go:111-114 | the sum over the found set is the sum of any duplicate-free listing of it, whatever the map order |
| Day2Chains.AnyChainLengthIntended | cmd/day2.go:95-117 | the corrected follow-up sums each repeated-chain id of the range once |
| Day2Chains.AsWrittenKeepsTen | cmd/day2.go:131-171 | for the range 10-1000 the code counts 10, which is no chain written twice; the corrected search does not |
| Day2Chains.InvalidIsTwoChains | cmd/day2.go:64-66 | part one's invalid ids are exactly the ids written as their half-length chain twice |
| Day2.RunDay2 | cmd/day2.go:25-49 | the run succeeds exactly when every piece of the input holds one `-` |
| Day2.RangeTotalIntended | cmd/day2.go:33-46 | with the corrections, one range contributes, in either part, the sum of its invalid ids, each once |
| Day2.RunDay2Intended | cmd/day2.go:25-49 | the corrected command answers, in either part, the sum over all ranges of each range's invalid ids |
| Day2.RunDay2EvenLowers | cmd/day2.go:25-49 | part one as written answers what the corrected command answers when every lower bound has an even number of digits |
| Day3.ParseBatteryBank | cmd/day3.go:66-73 | one value per byte, the byte less the code of `0`; the bank is all digits exactly when every byte is `0`..`9` |
| Day3.ReadBatteryBanks | cmd/day3.go:46-64 | one bank per line, in order |
| Day3.PickScan | cmd/day3.go:78-87 | after each battery the tens is the largest battery that may still be tens, at its first position, and the units the largest battery seen after it, or -1 |
| Day3.TwoDigitText | cmd/day3.go:88 | two digits printed one after the other read back as ten times the first plus the second |
| Day3.BestUnique | cmd/day3.go:75-91 | the best two-battery joltage of a bank is unique |
| Day3.MaxBankJoltageBest | cmd/day3.go:75-91 | for a bank of at least two digits, the joltage is the largest 10·a + b over two batteries a before b, a number from 0 to 99 |
| Day3.MaxBankJoltageShort | cmd/day3.go:75-91 | an empty bank prints `-1-1`, which is no number, and counts 0; a single battery d prints `-1d` and counts -10 - d |
| Day3.TotalJoltageBest | cmd/day3.go:39-42 | the sum over banks of at least two digits is the sum of their best joltages |
| Day3.Day3RunBest | cmd/day3.go:24-44 | when every line holds at least two digit bytes, the answer is the sum of each line's best two-battery joltage |
| Day6Ops.ParseOperator | cmd/day6.go:114-122 | a rune is an operator exactly when it is `+` or `*`, and the operator parsed is written with that rune |
| Day6Ops.ParseSymbol | cmd/day6.go:114-133 | parsing the symbol of a known operator gives back the operator |
| Day6Ops.Apply | cmd/day6.go:135-144 | applying succeeds exactly for a known operator |
| Day6Ops.ApplyNeutral | cmd/day6.go:104-144 | the starting value, 1 for a product and 0 for a sum, leaves the other operand unchanged on either side |
| Day6Ops.Init | cmd/day6.go:104-112 | after `Init` the operation is initialized with the same operator, and an initialized operation is left alone |
| Day6Ops.InitIdempotent | cmd/day6.go:104-112 | a second `Init` changes nothing, and a fresh operation starts from its neutral value |
| Day6Ops.Operate | cmd/day6.go:95-98 | operating succeeds exactly for a known operator and keeps the operator and the initialized flag |
| Day6Ops.OperateEachSum | cmd/day6.go:95-144 | feeding operands to a sum adds their sum to the result |
| Day6Ops.OperateEachProduct | cmd/day6.go:95-144 | feeding operands to a product multiplies the result by their product |
| Day6Ops.InitOperateEach | cmd/day6.go:58-66 | an initialized fresh `+` column ends with the sum of its operands and a `*` column with their product |
| Day6Ops.OperateEachUnknown | cmd/day6.go:135-144 | the unknown operator fails at its first operand |
| Day6Ops.TotalBackwards | cmd/day6.go:58-66 | a column fed bottom-up, as the reverse scanner reads it, totals the same as read top-down |
| Day6.OperatorLine | cmd/day6.go:43-55 | the operator line parses exactly when it holds only spaces, `+` and `*`; then one initialized operation per symbol, in order, written with that symbol |
| Day6.FeedRowsColumns | cmd/day6.go:58-66 | feeding the rows succeeds exactly when no row has more fields than there are operations; then each operation has been fed its column |
| Day6.ResultsWorksheet | cmd/day6.go:58-76 | when each fresh initialized operation, written with its symbol, has been fed its column read bottom-up, the sum of the results is the sum of the column totals in file order |
| Day6.EvaluateWorksheet | cmd/day6.go:43-76 | with an operator line and operand rows, the answer exists exactly when the line holds only spaces, `+` and `*` and no row is too wide, and is the sum of the column totals |
| Day6.Day6RunWorksheet | cmd/day6.go:24-79 | for a file of operand lines, a non-empty operator line and trailing blank lines, the run succeeds under the same conditions and answers the column-wise worksheet total in file order |
| Day6.Day6RunBlank | cmd/day6.go:37-41 | a file of blank lines only answers 0 |
| Day4Grid.Adjacent | cmd/day4.go:330-348 | for a cell on the grid, the candidates are exactly the touching cells with no negative coordinate, never the cell itself, without repeats: 8 inside, 5 on the first row or column, 3 in the corner |
| Day4Grid.AdjacentSymmetric | cmd/day4.go:330-348 | one cell is a candidate neighbour of another exactly when the other is one of it |
| Day4Grid.ParseRollsFromRow | cmd/day4.go:204-214 | the rolls of a row are exactly the columns holding `@`, in increasing column order |
| Day4Grid.RollsOfRows | cmd/day4.go:165-202 | the rolls read from row i on are exactly the `@` cells of those rows, each once |
| Day4Grid.ReadMap | cmd/day4.go:165-202 | the map has one row per line and its rolls are exactly the `@` cells, all on the grid; no other rune is an error |
| Day4Grid.RowMajor | cmd/day4.go:189-195 | the rows' rolls in reading order list each roll of the map exactly once |
| Day4Rows.RollsOfThree | cmd/day4.go:149-163 | the rolls of a three-cell slice are counted cell by cell |
| Day4Rows.IsRollAccessible | cmd/day4.go:149-163 | a roll is accessible exactly when the three cells above, the three below and the two beside it hold fewer than four rolls |
| Day4Rows.Dots | cmd/day4.go:98-109 | the row that stands in for a missing neighbour row has the current row's width and no roll |
| Day4Rows.Triple | cmd/day4.go:115-137 | the window of a roll reads the cells left of, at and right of its column, with `.` past the row's ends |
| Day4Rows.WindowIsAround | cmd/day4.go:115-140 | the window test of a roll agrees with counting the rolls among its eight surrounding cells |
| Day4Rows.AccessibleFromStep | cmd/day4.go:110-146 | the accessible columns from i on are column i when it is an accessible roll, plus those from i + 1 on |
| Day4Rows.CountFrom | cmd/day4.go:110-146 | the column loop succeeds exactly when every cell is `.` or `@` and every roll's window lies inside the neighbour rows; otherwise it panics |
| Day4Rows.CountFromValue | cmd/day4.go:110-146 | when the column loop succeeds it counts the accessible columns |
| Day4Rows.CountAccessibleRolls | cmd/day4.go:96-147 | with a missing neighbour row read as dots, the count exists exactly when every cell can be judged, and is the number of accessible rolls of the row |
| Day4Rows.AccessibleFromBound | cmd/day4.go:110-146 | no more columns are accessible than the row holds rolls |
| Day4Rows.CountAccessibleRollsBound | cmd/day4.go:96-147 | a row's count never exceeds its rolls |
| Day4Rows.RowCells | cmd/day4.go:88-91 | tagging a row's accessible columns with its row number keeps their count |
| Day4Rows.AccessibleCellsStep | cmd/day4.go:48-94 | the accessible cells of rows i and below are those of row i plus those below it |
| Day4Rows.CountAccessibleMap | cmd/day4.go:34-94 | part one over the map succeeds exactly when every row can be judged, and answers the number of accessible cells of the whole map |
| Day4Graph.RegisterNeighbor | cmd/day4.go:313-319 | a roll without a set gets an empty one and the neighbour is dropped; otherwise the neighbour is added and nothing else changes |
| Day4Graph.RegisterAllSpec | cmd/day4.go:216-226 | registering several neighbours adds all of them, except the first one when the roll had no set yet |
| Day4Graph.Present | cmd/day4.go:218-219 | only the candidates that are rolls are registered |
| Day4Graph.Link | cmd/day4.go:219-223 | linking two rolls registers each with the other and leaves every other roll alone |
| Day4Graph.LinkAll | cmd/day4.go:216-226 | linking a roll with its candidates registers it with each candidate roll and all candidate rolls with it, and leaves the other rolls alone |
| Day4Graph.LinkRolls | cmd/day4.go:216-226 | linking every roll in turn keeps the set of rolls |
| Day4Graph.RegisterNeighbors | cmd/day4.go:216-226 | the graph has exactly the map's rolls as vertices |
| Day4Graph.AdjacentFindsRolls | cmd/day4.go:330-348 | for two rolls on the grid, being a candidate neighbour is being a touching roll, and touching is symmetric |
| Day4Graph.LinkAllOwn | cmd/day4.go:216-226 | linking a roll gives it its touching rolls, less the first one when it had no set yet |
| Day4Graph.LinkAllOther | cmd/day4.go:216-226 | linking a roll registers it with exactly its candidate neighbours |
| Day4Graph.VisitOwn | cmd/day4.go:216-226 | after linking a roll, its set holds every touching roll linked so far |
| Day4Graph.VisitOther | cmd/day4.go:216-226 | linking another roll keeps every roll's set within its touching rolls, and holding every linked touching roll once the roll itself has been linked |
| Day4Graph.LinkRollsAt | cmd/day4.go:216-226 | after linking a sequence of rolls, each roll's set holds its touching rolls among those linked |
| Day4Graph.RegisterNeighborsExact | cmd/day4.go:216-226 | once every roll is linked, in any order, each roll's neighbours are exactly its touching rolls; the first registration lost on a fresh set is made up when the neighbour is linked itself |
| Day4Graph.RegisterNeighborsSymmetric | cmd/day4.go:216-226 | q is a neighbour of p exactly when p is one of q |
| Day4Peel.ScanCounts | cmd/day4.go:300-310 | the early-exit scan of `tryRemove` says removable exactly when the live neighbours number fewer than four |
| Day4Peel.TryRemove | cmd/day4.go:291-311 | a roll is gone exactly when it was removed before or has fewer than four neighbours left, whatever the order the neighbours are scanned in |
| Day4Peel.Visit | cmd/day4.go:247-260 | a removable roll is removed, counted as accessible, and its live neighbours become next round's candidates; otherwise nothing changes |
| Day4Peel.Round | cmd/day4.go:239-265 | a round removes only candidates, only adds to the next round, and removes nothing unless something among its candidates can go |
| Day4Peel.RoundNext | cmd/day4.go:239-265 | next round's candidates are all rolls |
| Day4Peel.RoundProgress | cmd/day4.go:238-266 | a round that removes nothing queues only rolls still present, and queues none unless one of its candidates had already been removed |
| Day4Peel.RoundPendingNext | cmd/day4.go:238-266 | every roll that could go after a round is among the next round's candidates |
| Day4Peel.RoundStep | cmd/day4.go:238-266 | each round either removes a roll, or removes none and queues only rolls still present, and none unless a candidate had already been removed; so the rounds terminate |
| Day4Peel.Rounds | cmd/day4.go:238-266 | the rounds only add to the removed rolls, count each removed roll as accessible, and stop with no live roll that has fewer than four live neighbours |
| Day4Peel.FindAccessibleRolls | cmd/day4.go:228-272 | the accessible rolls are the rolls the rounds remove |
| Day4Peel.RoundPending | cmd/day4.go:240-261 | within a round, every roll that could go is a candidate still to visit or already queued for the next round |
| Day4Peel.RoundSafe | cmd/day4.go:240-261 | a round never removes a roll of a group where each roll has four neighbours in the group |
| Day4Peel.RoundsSafe | cmd/day4.go:238-266 | no round ever removes a roll of such a group |
| Day4Peel.StuckStable | cmd/day4.go:238-266 | when no roll can go, the rolls left form such a group |
| Day4Peel.FindAccessibleRollsCore | cmd/day4.go:228-272 | the rolls left form such a group, and every such group is left alone: the rolls removed are those outside the largest such group |
| Day4Peel.FindAccessibleRollsOrderFree | cmd/day4.go:228-272 | the answer is the same for every order of map iteration |
| Day4Peel.LinkedGraph | cmd/day4.go:165-236 | the graph built from the map is symmetric and each roll's neighbours are its touching rolls |
| Day4Peel.AccessibleInMap | cmd/day4.go:38-41 | the follow-up removes only rolls of the map |
| Day4Peel.AccessibleOfRolls | cmd/day4.go:165-272 | every roll left has at least four touching rolls left, and no group of rolls each touching four rolls of the group is removed |
| Day4Peel.AccessibleInMapCore | cmd/day4.go:38-41 | on the map's text: every roll left touches four rolls left, and no braced group of rolls is removed |
| Day4Peel.AccessibleInMapSparse | cmd/day4.go:38-41 | when every roll of the map touches fewer than four rolls, the follow-up removes them all |
| Day5.MembersRange | cmd/day5.go:132-135 | the ids of an interval are exactly those from its lower to its upper bound |
| Day5.Contains | cmd/day5.go:150-152 | an interval contains a product exactly when the product is one of its ids |
| Day5.Merge | cmd/day5.go:158-180 | an unmerged interval is unchanged; merging keeps an interval valid; for two valid intervals the merge is reported exactly when they overlap or touch; an interval starting no lower keeps the lower bound |
| Day5.MergeSortedUnion | cmd/day5.go:158-180 | a reported merge of an interval starting no lower covers exactly the ids of both intervals, inverted intervals included |
| Day5.MergeUnion | cmd/day5.go:158-180 | a reported merge into a valid interval covers exactly the ids of both intervals |
| Day5.CoverMembership | cmd/day5.go:117-130 | an id is covered exactly when some interval of the list contains it |
| Day5.MembersCard | cmd/day5.go:36-37 | a valid interval holds upper - lower + 1 ids |
| Day5.Insert | cmd/day5.go:93-95 | inserting into a list sorted by lower bound keeps it sorted and adds exactly the one interval |
| Day5.SortByLower | cmd/day5.go:93-95 | the sorted list is ordered by lower bound and is a permutation of the input |
| Day5.Sweep | cmd/day5.go:97-114 | every interval swept either survives or is counted as merged |
| Day5.SweepCompacts | cmd/day5.go:97-114 | sweeping sorted valid intervals keeps exactly the ids covered, and leaves valid intervals that are sorted with a gap between each two |
| Day5.SweepCover | cmd/day5.go:97-114 | sweeping intervals sorted by lower bound keeps exactly the ids covered, whatever their bounds |
| Day5.CompactIntervals | cmd/day5.go:86-115 | kept plus merged intervals number the input's; a list of at most one interval is returned as it is |
| Day5.CompactIntervalsCover | cmd/day5.go:86-115 | compacting valid intervals keeps exactly the ids covered and leaves valid, separated intervals |
| Day5.CompactIntervalsKeepCover | cmd/day5.go:86-115 | compacting any intervals, inverted ones included, keeps exactly the ids covered |
| Day5.FreshIdCountIsCover | cmd/day5.go:33-40 | for separated valid intervals, adding up their sizes counts each covered id once |
| Day5.FreshIdsOfCompacted | cmd/day5.go:33-40 | the follow-up's sum over the compacted intervals is the number of distinct fresh ids |
| Day5.AnyContains | cmd/day5.go:121-126 | the inner loop finds an interval exactly when the product is covered |
| Day5.FindStaleProducts | cmd/day5.go:117-130 | the stale products are those no interval covers, each kept as often as it is listed |
| Day5.StaleOfCompacted | cmd/day5.go:78-84 | compacting the intervals, whatever their bounds, does not change which products are stale |
| Day5.StaleInOrder | cmd/day5.go:117-130 | the stale products keep their input order: those of a + b are those of a followed by those of b |
| Day5.StaleSingle | cmd/day5.go:117-130 | a single product is stale exactly when no interval covers it |
| Day5.StaleByCover | cmd/day5.go:117-130 | the stale products depend only on the ids covered, not on how the intervals are listed |
| Day5.ParseInterval | cmd/day5.go:137-148 | a line is an interval exactly when it holds one `-`, fatal otherwise |
| Day5.ParseIntervalFormat | cmd/day5.go:137-148 | reading back a written interval `lower-upper` gives the interval |
| Day5.FirstBlank | cmd/day5.go:69-72 | the intervals end at the first empty line, or at the end of the input |
| Day5.ParseProducts | cmd/day5.go:63-67 | every line after the blank line is a product, `Atoi` of it or 0 |
| Day5.ReadCatalog | cmd/day5.go:48-76 | the input reads exactly when every line before the first blank one holds one `-`; then those lines are the intervals, in order, and every line after it a product |
| Day5.ParseInput | cmd/day5.go:48-84 | reading the input and compacting its intervals, listed in any order, succeeds under the same condition, keeps the products and covers the same ids as the intervals read |
| Day5.SameListing | cmd/day5.go:86-87 | any listing of the set of intervals read covers the same ids, and is valid exactly when they are |
| Day5.AnswersOfCompacted | cmd/day5.go:27-46 | compacting any intervals changes no part-one answer; for valid intervals the follow-up answers the number of distinct fresh ids |
| Day5.AnswersOfValidCatalog | cmd/day5.go:27-84 | in every listing order of the set of intervals: part one answers the number of products some interval covers, for every catalog that reads; when the intervals are valid the follow-up answers the number of distinct ids any interval covers |
| Day5.InvertedListingMatters | cmd/day5.go:86-115 | with the inverted interval `10-3` and `10-20`, the follow-up's sum after compaction is 5 in one listing order and 11 in the other |
| Day7.FindStart | cmd/day7.go:134-141 | the start is found exactly when the line holds an `S`, and is the column of its first `S` |
| Day7.ColumnsFrom | cmd/day7.go:143-149 | the columns listed from i on are exactly those holding `^`, in increasing order |
| Day7.ParseSplits | cmd/day7.go:143-154 | a line has splits exactly when it holds a `^`; they are its `^` columns, in increasing order |
| Day7.SplitterRows | cmd/day7.go:115-129 | every row after the start line that is kept holds a splitter |
| Day7.ParseTachyonInput | cmd/day7.go:107-132 | an empty input has no rows and start 0; otherwise the first row is the start line, which holds no splitter, and the start is its first `S`, or 0 when there is none |
| Day7.PhysicalRows | cmd/day7.go:143-154 | one set of splitter columns per line, in order |
| Day7.Busy | cmd/day7.go:119-122 | dropping the rows without a splitter keeps only rows with splitters and never adds a row |
| Day7.SplitterRowsAreBusy | cmd/day7.go:115-129 | the rows the parser keeps are the input lines with a splitter: a line without one is skipped and does not advance the row counter |
| Day7.SpreadMember | cmd/day7.go:49-61 | a column carries a beam below a row exactly when a beam falls through it or a beam is split next to it |
| Day7.SplitRow | cmd/day7.go:49-61 | one row counts exactly the beams that meet a splitter |
| Day7.SplitRowBeams | cmd/day7.go:49-61 | the beams below a row are those a beam above reaches, whatever the order the beams are taken in |
| Day7.SplitRowSpreads | cmd/day7.go:48-62 | one row turns the set of beams into its spread |
| Day7.TraceFrom | cmd/day7.go:47-63 | the row loop counts the splitters met by some beam, for every iteration order of the set of beams |
| Day7.TraceRays | cmd/day7.go:43-65 | `traceRays` counts every splitter some beam from the start reaches, each once per row |
| Day7.QuietRowsSplitNothing | cmd/day7.go:119-122 | skipping rows without splitters does not change the split count |
| Day7.TraceRaysOfLines | cmd/day7.go:30-38 | part one counts the splitters reached through every line below the start line, skipped ones included |
| Day7.AddOrIncrease | cmd/day7.go:94-100 | the key gets the delta added to what it held, or the delta when it was absent; the other keys are unchanged |
| Day7.PathsOf | cmd/day7.go:82-85 | the new paths list each column of the map once with its count |
| Day7.WeightAppend | cmd/day7.go:82-85 | one more column adds its count times the routes from it |
| Day7.WeightUpdate | cmd/day7.go:94-100 | raising one column's count by d raises the weighted routes by d times the routes from it |
| Day7.AddWeight | cmd/day7.go:94-100 | `addOrIncrease` raises the weighted routes by the delta times the routes from the key |
| Day7.WeightRemove | cmd/day7.go:82-85 | the weighted routes are one column's share plus the rest's |
| Day7.WeightOrderFree | cmd/day7.go:82-85 | the weighted routes do not depend on the order in which the map is listed |
| Day7.RoutesStep | cmd/day7.go:73-80 | a particle on a splitter goes both ways, otherwise straight on |
| Day7.SplitWeight | cmd/day7.go:75-77 | a path on a splitter hands its count to both neighbouring columns, which keeps the routes it stands for |
| Day7.StepWeight | cmd/day7.go:73-80 | one path moved through a row keeps the routes it stands for |
| Day7.AdvanceWeight | cmd/day7.go:71-81 | moving every path through a row keeps the total routes they stand for |
| Day7.WeightedPaths | cmd/day7.go:82-85 | rebuilding the paths from the map keeps the routes they stand for |
| Day7.WeightedAtEnd | cmd/day7.go:87-90 | below the last row each path stands for its count |
| Day7.CountFromRoutes | cmd/day7.go:70-91 | the row loop ends with the routes the paths stand for, for every iteration order |
| Day7.CountPathsRoutes | cmd/day7.go:67-92 | `countPaths` answers the number of routes a particle from the start can take |
| Day7.QuietRowsAddNoRoutes | cmd/day7.go:119-122 | skipping rows without splitters does not change the number of routes |
| Day7.CountPathsOfLines | cmd/day7.go:30-35 | the follow-up counts the routes through every line below the start line, skipped ones included |
| Day7.StepSpreads | cmd/day7.go:73-80 | one path adds to the next map exactly the columns its beam spreads to |
| Day7.AdvanceKeys | cmd/day7.go:71-81 | the next row's map holds exactly the beams `traceRays` spreads the paths' columns to |
| Day7.NextRowBeams | cmd/day7.go:71-85 | the paths passed to the next row stand on the beams `traceRays` passes to it |
| Day7.PathsFollowBeams | cmd/day7.go:70-91 | after any number of rows, the columns of `countPaths`' paths are the beams of `traceRays`, for every iteration order |
| Day7.WeightedOneRow | cmd/day7.go:73-80 | through one last row, the paths stand for their counts plus once more the counts of those on a splitter |
| Day7.OriginsGrow | cmd/day7.go:71-85 | one row keeps the total of the counts and adds the counts of the paths on a splitter; with counts that are not negative the total never drops |
| Day7.QuietSplits | cmd/day7.go:47-63 | rows without splitters count no split |
| Day7.QuietRoutes | cmd/day7.go:70-91 | rows without splitters leave one route |
| Day7.RunDay7 | cmd/day7.go:26-41 | an empty input answers 0 splits or 1 route; otherwise the splits or routes through every line below the start line, from the first `S` |
| Day7.NoSplitters | cmd/day7.go:26-41 | with no splitter below the start line, whatever the lines hold, part one answers 0 and the follow-up 1 |
| Seqs.SumOrderFree | cmd/day2.go:111-114 | adding up a set's elements gives the same total in every listing order, so map iteration order does not matter |
| Wrappers.AllOk | cmd/day1.go:117-135 | reading line by line succeeds exactly when every line does, keeps each line's value in order, and otherwise fails with the reason of a failing line |

## Left out

- Opening and scanning files, and the Cobra command and flag wiring: each solver is given its input as a sequence of lines (bytes for Day 3).
- Day 6's reverse line scanner: it is modelled as the lines in reverse order. A read error from it is fatal in the code (`log.Fatal` on `scanner.Err()`); it is left out with the rest of file I/O.
- Goroutines, channels, `sync.Map` and atomics: every fan-out is only summed or merged into a set, so it becomes a sequential sum.
- Logging and the `String` methods: they affect no answer.
- Go's 64-bit integer overflow: integers are unbounded. This includes the 32-bit `atomic.Int32` split counter of `traceRays`, which is not wrapped.
- `strconv.Atoi`'s range error for numbers beyond 64 bits: only its syntax error is modelled (as 0 where the code drops the error).
- `math.Abs` and `math.Max` through `float64`: they are exact integers for the values involved, and are modelled as integer operations.
- Byte versus rune indexes: `findStart`, `parseSplits` and Day 1's `s[1:]` are modelled on characters, which agree with byte offsets for ASCII input only.
- The ring buffer of three rows in Day 4's `base`: part one is modelled over the explicit rows, each judged with its neighbours, which is what the buffer feeds to `countAccessibleRolls`.
- `RollMap.Cols`: it is only used for display.
- Day3.MaxBankJoltageBest: stated only for banks of digits. For a byte outside `0`..`9` the code prints a value outside 0..9 and reads it back; the model computes that result too, but no theorem describes it.
- Day5.MergeUnion: stated only for a valid receiver (lower <= upper). An inverted receiver can lose ids, e.g. `10-3` merged with `4-5` gives `10-5`.
- Day5.AnswersOfValidCatalog: the follow-up's answer is stated only when every interval has lower <= upper. An inverted interval adds a negative size to the sum, and whether it is merged away depends on the set's listing order (`Day5.InvertedListingMatters`), so no single answer exists to state.
- Day2Chains.GatheredIntended: stated for a non-negative lower bound, the only kind the parser yields (`Atoi` of text without a `-`, or 0).
- Day2.RangeTotalIntended: stated for a non-negative lower bound, for the same reason.

## Findings

| source | as written | input that shows it | evidently intended | confidence | as-written member | corrected member |
|---|---|---|---|---|---|---|
| cmd/day2.go:60-66 | a lower bound with an odd number of digits gets a `0` in front, and its first half is doubled | range `100-200`: `0100` gives the half `01` and the candidate `0101`, so 101 is summed although it is no number written twice; part one answers 101 for that range | start from the smallest half of the next even length (`10`, giving 1010), so that every candidate is a number written twice; the range answers 0 | not executed | Day2Halves.OddLowerCountsNonRepeat | Day2Halves.IntendedIds |
| cmd/day2.go:134-142 | the id length starts at max(lower's length, 2), so for a chain length t >= 2 the length t itself is tried with `reps` = 1 | range `10-1000`, chain length 2: every two-digit number from 10 to 99 is reported as made of a repeated chain, 10 among them | only lengths holding the chain at least twice (`reps` >= 2) are searched; 10 is not reported | not executed | Day2Chains.AsWrittenKeepsTen | Day2Chains.GatheredIntended |
