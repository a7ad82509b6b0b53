# Advent of Code 2021 in C, modelled in Dafny

This project models the puzzle solvers of a C repository for Advent of Code
2021 (`src/day_01.c` to `src/day_18.c`). The centre of the model is day 18:
snailfish numbers, their parser and printer, explode, split, reduction,
addition and magnitude. Around it are the other days. Each day is a module
in its own file:

- day 16 (packets): the BITS packet decoder and the packet value.
- day 10 (brackets): the syntax checker with its completion scores.
- day 14 (polymer): the pair-count polymer and its element counts.
- day 04 (bingo): bingo cards, winning lines, and the first and last winners.
- day 08 (segments): seven-segment digit deduction.
- day 11 (octopus): the flashing octopus grid.
- day 13 (origami): folding transparent paper.
- day 09 (basins): low points and basins.
- day 15 (chiton): the lowest-risk grid.
- day 12 (caves): route counting through caves.
- day 17 (trickshot): the probe launch.
- day 05 (vents): hydrothermal vent lines.
- day 06 (lanternfish): lanternfish timers.
- day 03 (diagnostic): the diagnostic report.
- day 02 (dive): the submarine course.
- day 07 (crabs): crab alignment fuel.
- day 01 (sonar): sonar sweep windows.

Shared helpers live in `wrappers.dfy` (Option and Result), `seqs.dfy`,
`sets.dfy` and `sorting.dfy`.

Where the C code changes things in place, the model does too. The day 11
octopus grid, the day 14 pair table and the day 13 grids are arrays or
classes with `modifies` clauses. Searches and counting loops are methods
with loop invariants. Each method is proved against a specification
function, and the properties the puzzle promises are lemmas about those
functions. Where the C code stops on `assert(false)` or another failed
assertion, the model returns an error value instead, with two exceptions:
`Sonar.FindNumberIncreasing` requires `0 < k <= a.Length` in place of the
asserts of `src/day_01.c:34-35`, and the `Octopuses.OctopusGrid` constructor
requires a 10x10 grid in place of the asserts of `src/day_11.c:50` and `:53`.

## Model

| member | source | states |
|---|---|---|
| Sonar.RisesIsDeeper | src/day_01.c:37-46 | the window ending at reading i is larger than the one before it exactly when reading i is deeper than the reading k places back |
| Sonar.IncreasesIsDeeper | src/day_01.c:37-49 | the number of rising windows equals the number of readings deeper than the one k places back |
| Sonar.IncreasesBound | src/day_01.c:37-49 | at most len - k windows can rise |
| Sonar.WindowSums | src/day_01.c:38-43 | the inner loop's two sums are the sums of the windows ending at i - 1 and at i |
| Sonar.FindNumberIncreasing | src/day_01.c:25-50 | the count returned is the number of rising windows, and at most len - k |
| Dive.ParseDirection | src/day_02.c:94-104 | a recognised word is the word of the direction returned |
| Dive.ParseDirectionRoundTrip | src/day_02.c:94-104 | each direction's word parses back to it, and a word fails exactly when it is not forward, down or up |
| Dive.ParseAllFails | src/day_02.c:131-132 | parsing the lines fails exactly when some line's word is not a direction |
| Dive.ParseAllFirstError | src/day_02.c:131-132 | a failed parse reports the word of the first line that is not a direction |
| Dive.ParseAllValues | src/day_02.c:88-109 | a successful parse gives each line's direction and distance, in order |
| Dive.ParseStops | src/day_02.c:131-132 | once a line fails, every longer run of lines fails with that line's word |
| Dive.Course1Totals | src/day_02.c:131-142 | part 1 ends as far forward as all forward moves, at depth down minus up, with aim 0 |
| Dive.Course2Totals | src/day_02.c:167-179 | part 2 ends as far forward as all forward moves, aiming at down minus up |
| Dive.PartsAgree | src/day_02.c:123-182 | both parts end at the same horizontal position, and part 1's depth is part 2's aim |
| Dive.NoForwardNoDive | src/day_02.c:169-172 | without forward moves part 2 stays at depth 0, whatever it aims at |
| Dive.CourseSnoc | src/day_02.c:131-142 | one more instruction moves each part's position by that instruction alone |
| Dive.FinalPositionPart1 | src/day_02.c:123-145 | the loop succeeds exactly when every line parses, fails with the first bad word, and ends at part 1's course |
| Dive.FinalPositionPart2 | src/day_02.c:159-182 | the loop succeeds exactly when every line parses, fails with the first bad word, and ends at part 2's course |
| Diagnostic.BitOfDouble | src/day_03.c:168-169 | shifting left and adding bit b puts b at bit 0 and moves every other bit up one place |
| Diagnostic.MostSignificantBit | src/day_03.c:19-29 | for num at least 1, 2^r <= num < 2^(r+1); for num at most 1, r is 0 |
| Diagnostic.FindMostSignificantBit | src/day_03.c:19-29 | the shifting loop returns the index of the highest set bit |
| Diagnostic.OrOfBounds | src/day_03.c:51-54 | the or of the numbers is at least each of them and fits every width they all fit |
| Diagnostic.FindMostSignificantBitOfAll | src/day_03.c:45-58 | every number fits in bits 0..r, and unless r is 0 some number reaches 2^r |
| Diagnostic.Complement | src/day_03.c:74-81 | `~num & mask` lies below 2^w |
| Diagnostic.InvertBits | src/day_03.c:74-81 | inversion flips bits 0..max_bit and clears every bit above |
| Diagnostic.InvertAddsToMask | src/day_03.c:74-81 | a number of that width plus its inversion is the mask 2^(max_bit+1) - 1 |
| Diagnostic.CountOnes | src/day_03.c:112-115 | the loop counts the numbers with bit n set |
| Diagnostic.MostCommon | src/day_03.c:121-128 | the corrected test: 1 exactly when ones outnumber zeros, 0 exactly when fewer, a failure exactly on a tie |
| Diagnostic.MostCommonMisfires | src/day_03.c:121-128 | with five numbers of which two set the bit, the test as written fails although 0 is the majority |
| Diagnostic.MostCommonAgrees | src/day_03.c:121-128 | on an even count, or whenever the two counts differ by more than one, the test as written agrees with the majority |
| Diagnostic.BuiltBits | src/day_03.c:162-170 | the gamma rate holds the majority value of each bit it has taken, in place, and nothing above; it fails exactly when one of those bits is tied |
| Diagnostic.BuiltErrPersists | src/day_03.c:163-170 | once a bit has tied, taking more bits keeps the same failure |
| Diagnostic.MostCommonNumber | src/day_03.c:150-173 | the loop over bits msb down to 0 builds the gamma rate, or stops at the first tied bit |
| Diagnostic.EpsilonIsMinority | src/day_03.c:201-207 | epsilon, the inversion of gamma over the same width, takes the less common value at every bit |
| Crabs.TriangleIsStepCosts | src/day_07.c:72-73 | the closed form d*(d+1)/2 is the sum 1 + 2 + ... + d of the step costs, and never below d |
| Crabs.Fuel2AtLeastFuel1 | src/day_07.c:24-83 | at any meeting point the part-2 fuel is at least the part-1 fuel |
| Crabs.MoveRight | src/day_07.c:29-31 | moving the meeting point right costs x - m more for each crab at or left of m and saves at most x - m for each other crab |
| Crabs.MoveLeft | src/day_07.c:29-31 | the mirror image of MoveRight for a move to the left |
| Crabs.MedianCostsLeast | src/day_07.c:112-116 | a median, with at least half the crabs on each side of it, costs no more part-1 fuel than any other whole position |
| Crabs.MiddleIsMedian | src/day_07.c:112-113 | in sorted positions the crab at index len / 2 is such a median |
| Crabs.FuelNeededPart1 | src/day_07.c:24-34 | the loop returns the part-1 fuel of all crabs at the meeting point |
| Crabs.FuelNeededPart2 | src/day_07.c:56-83 | the result is the part-2 fuel at floor(mean) or at ceil(mean), whichever is smaller |
| Lanternfish.Bucket | src/day_06.c:60-65 | counter v holds the number of fish with timer v |
| Lanternfish.Day | src/day_06.c:92-100 | after a day counter 6 holds the old 7s and 0s, counter 8 the old 0s, and every other counter v the old v + 1 |
| Lanternfish.HatchCount | src/day_06.c:94-99 | a fish at 0 becomes one 6 and one 8; any other fish counts down by one |
| Lanternfish.TickCount | src/day_06.c:93-100 | the fish at timer v after a day, counted from the school fish by fish, follow the counter rule |
| Lanternfish.TickIsDay | src/day_06.c:87-103 | counting the fish and then stepping the counters gives the same counters as stepping every fish and then counting |
| Lanternfish.DayTotal | src/day_06.c:93-100 | a day adds exactly the fish whose timer was 0 |
| Lanternfish.BucketTotal | src/day_06.c:60-65 | the counters of a school with timers 0..8 add up to the number of fish |
| Lanternfish.BucketSnoc | src/day_06.c:64 | one more fish with timer t adds one to counter t and changes no other counter |
| Lanternfish.ParseFish | src/day_06.c:54-70 | the nine counters hold the count of each timer |
| Lanternfish.IterateDay | src/day_06.c:87-103 | the counters are replaced by the next day's counters |
| Lanternfish.Simulate | src/day_06.c:152-162 | after the loop the counters are those of the given number of days later |
| Lanternfish.NumberOfFish | src/day_06.c:116-126 | the result is the sum of the nine counters |
| Vents.CellsOfSize | src/day_05.c:151-169 | a vertical or horizontal segment covers abs(end - start) + 1 points, and a diagonal one covers none |
| Vents.BoundsHoldEnds | src/day_05.c:107-119 | with the corrected bounds every end of every segment lies inside the grid |
| Vents.BoundsReached | src/day_05.c:107-119 | each corrected bound is an end of some segment, or 0 |
| Vents.BoundsAsWrittenMissEnd | src/day_05.c:109-118 | for the segment 1,0 -> 3,0 the bounds as written stop at x = 1, yet the segment draws at x = 3 |
| Vents.CoverOutside | src/day_05.c:121-125 | no segment covers a point outside the corrected bounds |
| Vents.FindBounds | src/day_05.c:107-119 | the bounds are the largest x and y of any end, and every covered point lies inside them |
| Vents.DrawVertical | src/day_05.c:152-158 | column x goes up by one from the lower to the higher y, and nothing else changes |
| Vents.DrawHorizontal | src/day_05.c:159-165 | row y goes up by one from the lower to the higher x, and nothing else changes |
| Vents.DrawSegment | src/day_05.c:151-169 | every point the segment covers goes up by one and every other point keeps its count; diagonals are skipped |
| Vents.FillGrid | src/day_05.c:144-171 | every point goes up by the number of segments covering it |
| Vents.OverCounts | src/day_05.c:189-195 | the row-by-row count of counters above 1 is the size of the set of those points |
| Vents.CountColumn | src/day_05.c:190-194 | the inner loop counts the points of column x whose counter is above 1 |
| Vents.NumberOfIntersecting | src/day_05.c:184-198 | the double loop returns the number of points whose counter is above 1 |
| Vents.NumberOfCrossings | src/day_05.c:220-227 | part 1 returns the number of points that at least two vertical or horizontal segments cover |
| Trickshot.SumUpToStep | src/day_17.c:62-65 | going from n - 1 to n adds n, for every whole n |
| Trickshot.SumUpToIsStepSum | src/day_17.c:62-65 | n*(n+1)/2 is the sum 1 + 2 + ... + n for n at least 0 |
| Trickshot.SumUpToBounds | src/day_17.c:62-65 | the sum is never negative, and is at least n for n at least 0 |
| Trickshot.VelocityAt | src/day_17.c:118-121 | after t steps the y-velocity is vy - t; an x-velocity at most 0 is 0 after one step, and a non-negative one never turns negative |
| Trickshot.FallsWhenDown | src/day_17.c:119-121 | a launch with y-velocity below 0 never rises above the start |
| Trickshot.WrongWayNeverInArea | src/day_17.c:91-98 | the early rejection is sound: a launch pointing away from the target never enters it |
| Trickshot.HeightPotential | src/day_17.c:119-121 | height plus the climb left in the remaining y-velocity equals the climb of the launch y-velocity |
| Trickshot.PeakIsHighest | src/day_17.c:235 | the credited peak is the greatest height of the trajectory, and the trajectory reaches it |
| Trickshot.DoesHit | src/day_17.c:83-125 | the simulation returns true exactly when the launch is not rejected and enters the area while the loop condition holds |
| Trickshot.LeastReaching | src/day_17.c:164-166 | the result is the least n at least 0 whose sum reaches v |
| Trickshot.FindLeastReaching | src/day_17.c:163-166 | the counting loop stops at the least n whose sum reaches v |
| Trickshot.LeastReachingIsUnique | src/day_17.c:163-166 | any n whose sum reaches v while every smaller one's does not is that least n |
| Trickshot.ScanOne | src/day_17.c:232-239 | one launch adds one to the count exactly when it hits, and the height becomes the greatest peak credited so far |
| Trickshot.RowDone | src/day_17.c:230-231 | finishing the y-velocities of one x-velocity is starting the next x-velocity |
| Trickshot.ScanRow | src/day_17.c:231-240 | after the inner loop the count is the number of hits scanned so far and the height is their greatest peak, or y_start |
| Trickshot.FindRanges | src/day_17.c:160-221 | a y-range holding 0 fails the assertion; otherwise the velocity ranges are the ones the C code derives |
| Trickshot.FindGreatestHeight | src/day_17.c:142-244 | the count is the number of hitting launches in the ranges and the result is the greatest credited peak, or y_start when none is higher |
| Caves.CaveClasses | src/day_12.c:11-19 | `start` is neither small nor big, so it is never entered again, and no cave is both small and big |
| Caves.FindCave | src/day_12.c:53-67 | the search returns the first cave with the name, and none exactly when no cave has it |
| Caves.AddName | src/day_12.c:111-134 | the new list holds the old names and the added one, and nothing else |
| Caves.CaveNames | src/day_12.c:100-134 | the cave list starts with `start` |
| Caves.CaveNamesDistinct | src/day_12.c:111-134 | since a cave is added only when the search misses, no name is listed twice |
| Caves.CaveNamesBound | src/day_12.c:109-134 | the input adds at most two caves per passage after `start` |
| Caves.CaveNamesFromEdges | src/day_12.c:100-134 | every cave is `start` or an end of some passage |
| Caves.CaveNamesHoldEdges | src/day_12.c:109-134 | both ends of every passage are among the caves |
| Caves.SlotsAsWrittenOverflow | src/day_12.c:95-134 | the one-line input `start-end` makes two caves, one more than the array of one slot per line holds |
| Caves.JoinedKept | src/day_12.c:136-145 | a passage recorded once stays recorded as later passages are added |
| Caves.FindOrAdd | src/day_12.c:111-134 | the cave with the name is found, or appended with no links; every earlier cave and link is kept |
| Caves.Connect | src/day_12.c:136-145 | each of the two caves gets the other appended to its links, and links stay two-way |
| Caves.AddPassage | src/day_12.c:110-146 | both ends are found or added and joined, keeping every earlier cave and link |
| Caves.ParseCaves | src/day_12.c:84-149 | cave 0 is `start`, the caves are the names in order of first appearance, links go both ways, and every passage joins its two caves |
| Caves.AllJoinedStep | src/day_12.c:109-148 | after one more passage every passage so far is joined |
| Caves.CaveNamesStep | src/day_12.c:109-134 | one more passage adds its first end and then its second when they are new |
| Caves.NumVisits | src/day_12.c:166-182 | the loop counts the occurrences of the cave's name on the path |
| Caves.SmallLeftDrops | src/day_12.c:229-253 | entering a cave never opens small-cave entries, and entering a small cave seen fewer than two times closes one |
| Caves.BudgetDrops | src/day_12.c:229-253 | each recursive call has a smaller termination measure, so the route count terminates when no passage joins two big caves |
| Caves.RoutesGrow | src/day_12.c:231-253 | a larger allowance of small-cave visits never finds fewer routes |
| Caves.RoutesViaGrow | src/day_12.c:225-255 | the same over the links from the i-th on |
| Caves.PartTwoAtLeastPartOne | src/day_12.c:289-294 | part 2, which lets one small cave be entered twice, counts at least the routes of part 1 |
| Caves.EndLinksCount | src/day_12.c:229-230 | when every link from the i-th on leads to `end`, each counts one route and none is followed |
| Caves.Routes | src/day_12.c:206-255 | the count of routes onward from a cave equals the number of onward routes listed by following its passages in order |
| Caves.RoutesVia | src/day_12.c:225-255 | the count through the passages from the i-th on equals the number of routes listed through them |
| Caves.NumberOfRoutes | src/day_12.c:287-294 | the count from `start` equals the number of listed routes; when no passage is listed twice and the allowance is 1 or 2, it is the number of distinct valid routes from `start` to `end` |
| Caves.EntryRule | src/day_12.c:229-253 | the entry test, with the allowance carried down, agrees with the small-cave rule on the longer path (no small cave more than the allowance, at most one twice), and the allowance passed down is the one in force there |
| Caves.RouteOnLast | src/day_12.c:228-229 | a one-cave onward route is a passage to `end` |
| Caves.RouteOnNext | src/day_12.c:230-253 | a longer onward route is a passage to a small or big cave followed by a valid route onward from it |
| Caves.EndCase | src/day_12.c:228-229 | through a passage to `end` the one route is that passage alone |
| Caves.EnterCase | src/day_12.c:230-253 | through an entered cave the routes are that cave followed by the routes onward from it |
| Caves.SkipCase | src/day_12.c:230-233 | through a cave the entry test refuses there is no valid route |
| Caves.RouteListRoutes | src/day_12.c:206-255 | the listed onward routes are exactly the valid onward routes through the i-th passage or a later one |
| Caves.RouteListDistinct | src/day_12.c:225-255 | when no passage is listed twice the listed routes differ, and each leaves through the i-th passage or a later one |
| Caves.ThroughDistinct | src/day_12.c:225-253 | the routes through one passage differ and all begin with it |
| Caves.AllRoutesValid | src/day_12.c:287-294 | when no passage is listed twice and the allowance is 1 or 2, the routes listed from `start` are exactly the valid routes, each once |
| Chiton.TileWraps | src/day_15.c:119-126 | a raised level stays in 1..9 and equals (v - 1 + shift) mod 9 + 1 |
| Chiton.TopLeftTile | src/day_15.c:119-122 | the top-left tile of the tiling is the grid itself |
| Chiton.TileAtLevels | src/day_15.c:119-126 | every tile of a grid with levels 1..9 has levels 1..9 |
| Chiton.FillRow | src/day_15.c:117-128 | row i of the tiling holds, cell by cell, the grid cell of its tile raised by the tile's distance and wrapped |
| Chiton.MakeFullGrid | src/day_15.c:106-132 | the full map is five times as long and wide, each cell is the tiled value, the top-left tile is the grid, and levels stay in 1..9 |
| Chiton.Balanced | src/day_15.c:184-206 | a cell that is supported and bounded by every reached neighbour has exactly its level plus the least neighbour risk |
| Chiton.SoundKept | src/day_15.c:165-214 | giving a non-start cell a supported value no higher than before keeps every cell's risk supported by a neighbour |
| Chiton.LowestNeighbour | src/day_15.c:184-206 | the result is at most the starting point, the cells above and left, and the cells below and right once they have a risk, and equals one of them |
| Chiton.RelaxOptimal | src/day_15.c:184-214 | a relaxed value no higher than every neighbour looked at, plus the level, is bounded by every reached neighbour |
| Chiton.RelaxSupported | src/day_15.c:165-214 | a relaxed value reached through the starting point or a neighbour is supported |
| Chiton.SetCell | src/day_15.c:172-173 | only cell (i, j) changes, to the given value |
| Chiton.RelaxFacts | src/day_15.c:165-214 | the relaxed value is positive, never rises, keeps the grid sound and makes the cell bounded by its neighbours |
| Chiton.RelaxedRisk | src/day_15.c:165-214 | a first visit starts from the left (or upper) neighbour, a later one from the risk less the level; the result is the least found plus the level, and `changed` holds exactly when it is a first or lower value |
| Chiton.Relax | src/day_15.c:159-215 | the start gets 0 and no change; any other cell gets its relaxed risk and only that cell changes |
| Chiton.RelaxRow | src/day_15.c:160-215 | one row relaxed left to right: risks only fall, the row is reached, a change is a real improvement, and with no change every cell of the row is bounded by its neighbours |
| Chiton.RowStep | src/day_15.c:160-215 | the row invariants carry over the relaxation of one more cell |
| Chiton.Sweep | src/day_15.c:158-216 | one pass over the grid: every cell is reached, risks only fall, and with no change every non-start cell is bounded by its neighbours |
| Chiton.SweepStep | src/day_15.c:159-216 | the pass invariants carry over one more row |
| Chiton.TotalDrops | src/day_15.c:208-214 | a grid no higher anywhere and lower somewhere has a lower sum of risks |
| Chiton.SweepLowersTotal | src/day_15.c:208-218 | a pass that changed a fully reached grid lowers the sum, so the repeated passes terminate |
| Chiton.FindLowestRisks | src/day_15.c:145-219 | the recursion ends with the start at 0 and every other cell at its level plus the least risk among its neighbours |
| Chiton.ZeroRisks | src/day_15.c:127 | a fresh grid of zeros of the same shape is a sound starting point |
| Chiton.Equations | src/day_15.c:145-219 | the final grid satisfies the risk equations |
| Chiton.LeastBelowNeighbours | src/day_15.c:184-206 | the least neighbour risk is at most the risk of every neighbour |
| Chiton.NearestNeighbour | src/day_15.c:184-206 | away from the start, the least neighbour risk is the risk of some adjacent cell |
| Chiton.RiskStep | src/day_15.c:184-214 | under the risk equations a cell's risk is at most a neighbour's risk plus its own level |
| Chiton.NoCheaperPath | src/day_15.c:145-219 | under the risk equations no path from the top-left cell to a cell costs less than that cell's risk |
| Chiton.CheapestPath | src/day_15.c:145-219 | under the risk equations, with levels of at least 1, some path to each cell costs exactly its risk |
| Chiton.RisksAreLowest | src/day_15.c:145-219 | each cell's risk is the lowest total risk of a path to it |
| Chiton.CornerIsLowest | src/day_15.c:246-251 | the bottom-right risk is the lowest total risk of a path to the bottom-right cell |
| Chiton.LowestTotalRisk | src/day_15.c:246-251 | part 1: the risks of the grid satisfy the risk equations, and the answer is the lowest total risk of a path to the bottom-right cell: no path costs less and one costs exactly that |
| Chiton.FullLowestTotalRisk | src/day_15.c:253-258 | part 2: the full map is the 5x5 tiling of the grid, and the answer is the lowest total risk of a path across it, with the same two halves |
| Origami.FoldedSize | src/day_13.c:194-205 | the folded dimension is the larger side of the fold line: at least each side, and equal to one of them |
| Origami.ReflectInside | src/day_13.c:233-251 | the new index `m - |c - k|` of an index off the line lies inside the folded dimension |
| Origami.ReflectMirrors | src/day_13.c:233-251 | an index and its mirror image across the line land on the same place |
| Origami.ReflectSideInjective | src/day_13.c:233-251 | on one side of the line, different indices land on different places |
| Origami.FoldedDims | src/day_13.c:186-206 | a fold along x keeps the rows, one along y keeps the columns |
| Origami.FoldPos | src/day_13.c:222-252 | a mark off the line keeps one coordinate, reflects the other, and lands inside the folded grid |
| Origami.FoldedMarksFewer | src/day_13.c:216-257 | a fold never adds marks: overlapping dots merge |
| Origami.FoldedMarksAdd | src/day_13.c:216-257 | one more mark adds exactly its image |
| Origami.MarksBeforeNext | src/day_13.c:216-217 | moving past one cell in row-major order adds it when it is marked |
| Origami.MarksBeforeRow | src/day_13.c:216-217 | the end of a row is the start of the next, and the end of the grid holds every mark |
| Origami.FoldStep | src/day_13.c:218-252 | passing a mark off the line adds its image to the folded marks |
| Origami.Mark | src/day_13.c:155 | only position (i, j) becomes marked |
| Origami.GridSize | src/day_13.c:128-141 | the grid is one past the largest y and x: every dot fits, and the bounds are reached by some dot |
| Origami.MakeGrid | src/day_13.c:144-163 | a fresh grid, sized to the dots, whose marks are exactly the dots |
| Origami.FoldRow | src/day_13.c:217-256 | one row folded: its marks' images are added, or a mark on the line is reported |
| Origami.FoldGrid | src/day_13.c:179-260 | a fresh grid of the folded dimensions whose marks are exactly the images of the marks; a mark on the fold line fails the assertion, reported as an error naming it |
| Origami.CountRow | src/day_13.c:279-285 | the count after row i is the number of marks in rows 0..i |
| Origami.CountMarked | src/day_13.c:273-287 | the count is the number of marked positions |
| Origami.FoldAllSpec | src/day_13.c:343-355 | after a sequence of folds every mark lies inside the resulting dimensions |
| Origami.FoldAllSpecStep | src/day_13.c:343-355 | a first fold that meets no mark hands the rest of the folds the folded marks |
| Origami.FoldAll | src/day_13.c:330-359 | succeeds exactly when no fold meets a mark; the final grid is the folds' result, and part 1 counts the marks after the first fold, never more than the dots |
| Octopuses.CellsCount | src/day_11.c:207-212 | the grid has exactly 100 positions |
| Octopuses.AtMostAllCells | src/day_11.c:205-229 | no step flashes more than 100 octopuses |
| Octopuses.NeighbourOffset | src/day_11.c:96-180 | the k-th neighbour in the flash's order (above, above left, above right, below, below left, below right, left, right) is adjacent |
| Octopuses.NeighbourIndex | src/day_11.c:96-180 | every adjacent offset has exactly one place in that order, and it maps back to the offset |
| Octopuses.PendingAt | src/day_11.c:96-180 | after the first k neighbours are raised, exactly the later adjacent ones are still owed one raise |
| Octopuses.PendingSettle | src/day_11.c:96-180 | raising the k-th neighbour leaves exactly the later ones owed |
| Octopuses.PendingSkip | src/day_11.c:96-180 | a neighbour off the grid, skipped by the bounds tests, is owed nothing |
| Octopuses.Plus1 | src/day_11.c:214-219 | the first half of a step leaves every energy one higher |
| Octopuses.ZerosAreCells | src/day_11.c:221-226 | counting neighbours at energy 0 counts neighbours that flashed |
| Octopuses.ZerosClosed | src/day_11.c:221-226 | the octopuses at 0 after a step are closed under the cascade |
| Octopuses.StepIsDeterministic | src/day_11.c:205-229 | the step rule has one outcome: two grids that are both a step on from the same grid are equal |
| Octopuses.OctopusGrid.constructor | src/day_11.c:45-62 | the energies are the given ones, cell by cell, and no octopus has flashed |
| Octopuses.OctopusGrid.FlashedAroundAtMost | src/day_11.c:81-184 | flashed neighbours that all lie in a set number at most the neighbours in that set |
| Octopuses.OctopusGrid.Flash | src/day_11.c:81-184 | an unflashed octopus above 9 flashes; the returned count is the number of new flashes, a flashed octopus sits at 0, each other octopus's energy is its start plus its flashed neighbours still owed, and every flash was forced by the cascade |
| Octopuses.OctopusGrid.RaiseNeighbours | src/day_11.c:96-180 | all eight neighbours are raised, and the count is the flashes they set off |
| Octopuses.OctopusGrid.RaiseRow | src/day_11.c:96-160 | the three neighbours above (or below) are raised in the C code's order |
| Octopuses.OctopusGrid.RaiseSides | src/day_11.c:161-180 | the left and right neighbours are raised |
| Octopuses.OctopusGrid.AccountSame | src/day_11.c:81-184 | the bookkeeping depends on the owed raises one position at a time |
| Octopuses.OctopusGrid.Ignite | src/day_11.c:88-91 | the octopus is marked flashed at energy 0, every neighbour is owed one raise, and the flashed set grows by exactly this one |
| Octopuses.OctopusGrid.Forced | src/day_11.c:88-91 | an octopus about to flash lies in every set closed under the cascade |
| Octopuses.OctopusGrid.RaiseNeighbour | src/day_11.c:96-180 | the k-th neighbour, if on the grid, is raised and the owed raise is paid |
| Octopuses.OctopusGrid.Raise | src/day_11.c:98-104 | an unflashed neighbour goes up by one and flashes once above 9; a flashed one is left alone |
| Octopuses.OctopusGrid.Bump | src/day_11.c:99-100 | only that octopus's energy goes up by one and the flashed set is unchanged |
| Octopuses.OctopusGrid.SettleKeepsAccount | src/day_11.c:99-100 | the bookkeeping holds after one owed raise is paid |
| Octopuses.OctopusGrid.LitIsZero | src/day_11.c:88-91 | after a step a flashed neighbour is one at energy 0 |
| Octopuses.OctopusGrid.Step | src/day_11.c:205-229 | one step from the old energies: the new grid is a step on from the old one (each octopus ends at 0 exactly when its old energy plus 1 plus its flashed neighbours exceeds 9, and otherwise at that sum; the flashed set is the least the cascade allows), and the count is the number of octopuses at 0 |
| Octopuses.OctopusGrid.FlashesSettled | src/day_11.c:221-226 | once nothing unflashed is above 9, an octopus flashed exactly when its start plus 1 plus its flashed neighbours is above 9 |
| Octopuses.OctopusGrid.FlashedAreZeros | src/day_11.c:205-229 | after a step the flashed octopuses are those at 0, and the step rule holds everywhere |
| Octopuses.OctopusGrid.ResetAndRaise | src/day_11.c:214-219 | every flag is cleared and every energy is one higher |
| Octopuses.OctopusGrid.FlashAll | src/day_11.c:221-226 | every octopus tried in row-major order: none is left unflashed above 9, the count is the flashed set's size, and every flash was forced |
| Octopuses.OctopusGrid.EnergiesMatch | src/day_11.c:250-262 | the grid's synchronisation tests read the same on its table of energies |
| Octopuses.OctopusGrid.LastRowCheck | src/day_11.c:250-262 | the test as written answers exactly whether the last row matches the top-left energy |
| Octopuses.OctopusGrid.SynchronisedCheck | src/day_11.c:250-262 | the intended test answers exactly whether all 100 energies are equal |
| Octopuses.OctopusGrid.AllFlashedMeansZero | src/day_11.c:244-271 | right after a step, all energies equal 0 exactly when every octopus flashed |
| Octopuses.OctopusGrid.TotalFlashes | src/day_11.c:299-302 | the energies pass through a run of steps, each a step on from the one before, and the total is the number of octopuses at 0 after each step |
| Octopuses.OctopusGrid.StepsToSynchronise | src/day_11.c:244-271 | the energies pass through a run of steps; no state before the last is synchronised, and the step returned is the first synchronised one |
| Octopuses.OctopusGrid.StepsToSynchroniseAsWritten | src/day_11.c:244-271 | the search as written: it stops at the first step whose last row matches the top-left energy |
| Octopuses.RunsJoin | src/day_11.c:299-308 | a run of steps followed by one starting where it ends is one run |
| Octopuses.Run | src/day_11.c:287-315 | 100 steps whose flashes are totalled, then the first synchronised step after them, counted from the start |
| Octopuses.LastRowCheckMisfires | src/day_11.c:250-262 | a grid whose last row matches the top-left energy while another energy differs passes the test as written but not the intended one |
| Basins.IsLowMeans | src/day_09.c:129-150 | the C code's chain of tests flags a point exactly when it is strictly lower than every neighbour inside the map |
| Basins.CheckLowPoint | src/day_09.c:129-150 | one area is flagged exactly when it is a low point |
| Basins.IdentifyLowPoints | src/day_09.c:118-153 | every low point is flagged and nothing else; heights and other fields are unchanged |
| Basins.SumOfRiskLevels | src/day_09.c:167-181 | the total is the risk summed over the flagged areas row by row |
| Basins.RiskBefore | src/day_09.c:172-178 | the risk added up before (i, j) is that of the low points before it |
| Basins.TotalRiskOfLowPoints | src/day_09.c:167-181 | the total risk is the sum of height plus one over the low points |
| Basins.LowestIsLowest | src/day_09.c:225-257 | the chosen neighbour is adjacent, below 9 and no higher than any other neighbour; there is none exactly when every neighbour is at 9 |
| Basins.LowestDescends | src/day_09.c:221-261 | on a map where every non-low area below 9 has a lower neighbour, every step of the walk goes strictly down |
| Basins.WalkEnd | src/day_09.c:221-261 | the walk stops at a low point no higher than where it started |
| Basins.Walk | src/day_09.c:208-266 | an area has no basin exactly when its height is 9, and otherwise drains to a low point |
| Basins.LowestNeighbour | src/day_09.c:225-257 | the neighbour chosen is the first lowest below 9 in the order above, below, left, right |
| Basins.FindBasin | src/day_09.c:199-267 | the low point returned is the walk's end, and none at height 9 |
| Basins.PlateauCycles | src/day_09.c:221-261 | two equal areas side by side, neither a low point, are each other's lowest neighbour, so the walk never ends |
| Basins.WalkEndsAt | src/day_09.c:287-288 | the table of walk ends holds each area's basin |
| Basins.CountBeforeNext | src/day_09.c:289-291 | one more area adds one to a low point's count exactly when it drains there |
| Basins.BasinBeforeNext | src/day_09.c:285-292 | the basin seen so far grows by the next area exactly when it drains to the low point |
| Basins.CountBeforeIsBasin | src/day_09.c:285-292 | the count is the number of areas draining to the low point |
| Basins.BasinSizeIsBasin | src/day_09.c:281-294 | the size recorded on a low point is the number of areas in its basin |
| Basins.RecordBasin | src/day_09.c:287-291 | the area's basin is recorded and its low point's size goes up by one; nothing else changes |
| Basins.AssignBasin | src/day_09.c:287-291 | the same, with the basin found by the walk |
| Basins.AssignRow | src/day_09.c:286-292 | every area of row i gets its basin and the sizes count the areas so far |
| Basins.IdentifyBasins | src/day_09.c:281-294 | every area gets its basin's low point and every low point the size of its basin |
| Basins.LowBeforeMembers | src/day_09.c:330-336 | the low points listed before (i, j) are exactly the low points before it, each once |
| Basins.SizesOfAppend | src/day_09.c:330-336 | one more low point appends its basin size |
| Basins.DrainedStep | src/day_09.c:281-294 | a new low point adds its basin, disjoint from the others |
| Basins.DrainedCount | src/day_09.c:281-294 | the areas draining into distinct low points number the sum of their basin sizes |
| Basins.BasinSizesSum | src/day_09.c:281-294 | every area below 9 lies in exactly one basin: the basin sizes sum to the number of areas below 9 |
| Basins.TopThreeOfSorted | src/day_09.c:339-343 | after sorting, the last three sizes are the largest: no other entry exceeds any of them |
| Basins.CountLowPoints | src/day_09.c:319-326 | the count is the number of low points |
| Basins.Put | src/day_09.c:333 | the entry just past the first k is set and those before it are kept |
| Basins.CollectRow | src/day_09.c:329-336 | the sizes listed after row i are the basin sizes of the low points up to it, in order |
| Basins.CollectSizes | src/day_09.c:328-337 | the array lists the basin size of every low point in row-major order |
| Basins.ThreeLargestBasinsMultiplied | src/day_09.c:307-347 | the product of the three largest basin sizes |
| Basins.HeightsOf | src/day_09.c:94-101 | each height is the digit's value |
| Basins.MakeHeightMap | src/day_09.c:84-104 | a fresh map with the input's heights, no low points, no basins and sizes 0 |
| Basins.Run | src/day_09.c:363-390 | part 1 is the total risk of the low points, part 2 the product of the three largest basin sizes |
| Segments.FreshNote | src/day_08.c:64-102 | every pattern holds its input's segments, sorted, and every digit slot is unidentified (100) |
| Segments.SortAllIsSorted | src/day_08.c:83-90 | each pattern after the sort is sorted and holds the same segments |
| Segments.EasyNumsToAt | src/day_08.c:159-169 | the first j slots are labelled 1, 4, 7 or 8 by length and the rest are untouched |
| Segments.LabelEasyToAt | src/day_08.c:154-171 | the first i notes are labelled by length and the rest untouched |
| Segments.FirstOfLength | src/day_08.c:210-213 | the index found holds a pattern of the length, and none before it does |
| Segments.HardNumsToAt | src/day_08.c:196-315 | the first j slots have been through the segment tests and the rest are untouched |
| Segments.HardAllToRest | src/day_08.c:195-316 | notes after the i-th are untouched |
| Segments.HardNumsErrPersists | src/day_08.c:312 | once a slot fails the tests, the note's pass fails with that error |
| Segments.HardAllErrPersists | src/day_08.c:312 | once a note fails, the pass over all notes fails with that error |
| Segments.FirstEqual | src/day_08.c:343-348 | the index found holds a pattern identical to the output, and none before it does |
| Segments.OutputNumsToAt | src/day_08.c:338-351 | the first j outputs take the digit of the first identical signal and the rest are untouched |
| Segments.LabelOutputsToAt | src/day_08.c:337-352 | the first i notes have their outputs labelled and the rest are untouched |
| Segments.OutputValueRoundTrip | src/day_08.c:376-380 | reading four digits 0..9 as a decimal number loses nothing: the value is below 10^4 and its decimal digits are the digits read |
| Segments.ShownLength | src/day_08.c:17-22 | a pattern shown under a wiring has as many segments as its digit has lit |
| Segments.ShownTests | src/day_08.c:218-303 | the C code's tests on scrambled patterns (all of the 1's segments present; segments shared with the 4) give what they give on the unscrambled digits |
| Segments.LitFacts | src/day_08.c:196-313 | on the unscrambled digits, the lengths tell 1, 4, 7, 8 apart, and the 1 and 4 tests tell 0, 6, 9 and 2, 3, 5 apart |
| Segments.WiredSearches | src/day_08.c:210-237 | under a wiring, the unbounded searches for the patterns of length 2 and 4 succeed and find the 1 and the 4 |
| Segments.HardLabelDecides | src/day_08.c:196-313 | the tests answered as on digit d label a five- or six-segment slot d |
| Segments.SlotIdentified | src/day_08.c:154-317 | under a wiring, each slot labelled by length and then by the tests gets the digit it shows |
| Segments.HardNumsCorrectTo | src/day_08.c:196-315 | the first j slots get the digits they show, with no failure |
| Segments.SignalsIdentified | src/day_08.c:154-317 | a fresh note whose signals are the ten digits under some wiring gets every signal's digit |
| Segments.ShowsOneDigit | src/day_08.c:343-350 | under a wiring a pattern shows at most one digit |
| Segments.OutputsIdentified | src/day_08.c:333-353 | once the signals carry their digits, each output gets the digit it shows |
| Segments.NoteDecoded | src/day_08.c:154-353 | on a note whose signals show the ten digits under some wiring, the three labelling passes succeed and give each output the digit it shows |
| Segments.NoRepeatsCounts | src/day_08.c:84-89 | a pattern has no repeated segment exactly when no segment occurs twice in its multiset |
| Segments.SameSegments | src/day_08.c:84-89 | sorting keeps a pattern's segments and its lack of repeats |
| Segments.SortedShowsUnique | src/day_08.c:84-346 | two sorted displays of the same digit are the same string, so the string comparison meets the signal showing the output's digit |
| Segments.DisplayDecoded | src/day_08.c:50-353 | a note parsed from a display whose signals are the ten digits under a wiring and whose outputs show `shown`: after sorting every output is among the signals, and the passes give the outputs exactly `shown` |
| Segments.EasyCountsDigits | src/day_08.c:126-134 | part 1 counts exactly the outputs that show 1, 4, 7 or 8 |
| Segments.FindNumEasyInOutput | src/day_08.c:121-138 | the count is the number of outputs of length 2, 3, 4 or 7 over all notes |
| Segments.IdentifyEasy | src/day_08.c:154-171 | every note's signals are labelled by length and nothing else changes |
| Segments.FindOfLength | src/day_08.c:210-213 | the search returns the first pattern of the length |
| Segments.DeduceSlot | src/day_08.c:196-314 | the slot's label is the one the tests give, or the error of a five-segment pattern sharing neither 2 nor 3 segments with the 4 |
| Segments.IdentifyHard | src/day_08.c:188-317 | the notes become the result of the tests on every note, or the first failure is reported |
| Segments.IdentifyOutputs | src/day_08.c:333-353 | every output takes the digit of the first identical signal |
| Segments.FindMatch | src/day_08.c:343-348 | the search returns the first signal identical to the output |
| Segments.FindSumOfOutputs | src/day_08.c:369-385 | the sum over notes of the four output digits read as a decimal number |
| Sorting.InsertMultiset | src/day_09.c:339 | inserting keeps every number |
| Sorting.InsertSorted | src/day_09.c:339 | inserting into a sorted list keeps it sorted |
| Sorting.SortIsSortedPermutation | src/day_09.c:339 | the numbers sorted are in non-decreasing order and are a permutation of the input |
| Sorting.SortStringIsSortedPermutation | src/day_08.c:84-89 | a pattern sorted is in non-decreasing order and holds the same segments |
| Sorting.SortedSameHead | src/day_08.c:84-89 | two sorted strings with the same characters start alike and their tails have the same characters |
| Sorting.SortedCharsUnique | src/day_08.c:84-89 | two sorted strings with the same characters, counted with repeats, are equal |
| Bingo.RowFullToMeans | src/day_04.c:193-199 | the row test holds exactly when every square of the row is called |
| Bingo.ColFullToMeans | src/day_04.c:209-215 | the column test holds exactly when every square of the column is called |
| Bingo.AnyRowMeans | src/day_04.c:193-206 | some row test holds exactly when some row is fully called |
| Bingo.AnyColMeans | src/day_04.c:209-222 | some column test holds exactly when some column is fully called |
| Bingo.Flagged | src/day_04.c:191-223 | the winner check keeps the squares and sets the flag exactly when the card was flagged or has a full line |
| Bingo.MarkToAt | src/day_04.c:160-171 | the first k squares are checked off and the rest untouched |
| Bingo.MarkChangesOnlyMatches | src/day_04.c:160-171 | checking off sets `called` exactly on the squares holding the number and changes nothing else |
| Bingo.FlagToAt | src/day_04.c:191-224 | the first k cards have been through the winner check and the rest are untouched |
| Bingo.FirstWinnerTo | src/day_04.c:202-220 | the reported card is a card with a line now |
| Bingo.FirstWinnerIsFirst | src/day_04.c:185-227 | the reported winner is the first card with a line in array order, and none is reported exactly when no card has one |
| Bingo.UncalledSumAfterMark | src/day_04.c:284-298 | a call takes its number off the score once for every uncalled square holding it |
| Bingo.NonWinnersCount | src/day_04.c:314-339 | the filter keeps as many cards as have no line flag |
| Bingo.NonWinnersExactly | src/day_04.c:314-339 | the filter keeps exactly the cards without a line flag |
| Bingo.MarkCardsToAt | src/day_04.c:256-259 | the first k cards are checked off and the rest untouched |
| Bingo.FirstWinnerHasLine | src/day_04.c:185-227 | the card the winner check picks has a full line and the flag |
| Bingo.FirstWinIsLine | src/day_04.c:244-271 | the part 1 winner has a fully called line and the flag, and its number is one of the calls |
| Bingo.FirstWinIsFirst | src/day_04.c:244-271 | part 1 finds a winner exactly when some call produces one, and then answers the first card reported at the first such call, with that call's number: no earlier call produced a winner |
| Bingo.LastWinIsLine | src/day_04.c:356-402 | the part 2 answer has a fully called line and the flag, and its number is one of the calls |
| Bingo.LastWinnerIsLine | src/day_04.c:356-402 | the same from the cards as part 1 left them |
| Bingo.StepNoneFlagged | src/day_04.c:374-383 | the cards kept after a call have no line flag |
| Bingo.LastWinIsLast | src/day_04.c:372-395 | a part 2 answer comes from a final call: every earlier call left some card, just before it exactly one card was left and it had no line, the call leaves none, and the answer is that card after the call with the call's number |
| Bingo.LastWinnerIsLast | src/day_04.c:356-402 | the same from the cards as part 1 left them |
| Bingo.CheckOff | src/day_04.c:160-171 | only the card at `idx` changes, checked off for the number |
| Bingo.CheckOffAll | src/day_04.c:256-259 | every card is checked off for the number |
| Bingo.RowIsCalled | src/day_04.c:194-199 | the answer is whether the row is fully called |
| Bingo.ColumnIsCalled | src/day_04.c:210-215 | the answer is whether the column is fully called |
| Bingo.CheckForWinningLine | src/day_04.c:185-227 | every card goes through the winner check and the index returned is the first card with a line |
| Bingo.FindBingoWinner | src/day_04.c:244-271 | the cards and the answer are those of the part 1 search, or the error of the failed assertion |
| Bingo.SumOfUnmarked | src/day_04.c:284-298 | the score is the sum of the card's uncalled numbers |
| Bingo.Filter | src/day_04.c:314-339 | a fresh array of exactly the cards without a line flag, in order |
| Bingo.FindLastWinner | src/day_04.c:356-402 | the answer is that of the part 2 search, or the error of a failed assertion |
| Polymer.Labels | src/day_14.c:124-131 | the table's labels are the rule pairs, in rule order |
| Polymer.FindFromIsFirst | src/day_14.c:73-85 | the search returns the first equal label, and none exactly when no label is equal |
| Polymer.Tallied | src/day_14.c:134-138 | a template's table, when every adjacent pair has a label, has one entry per label |
| Polymer.TalliedErrPersists | src/day_14.c:134-138 | once a template pair has no label, the whole count reports it |
| Polymer.TalliedSum | src/day_14.c:134-138 | the initial table counts every adjacent pair once: it sums to the template's length less one |
| Polymer.AddTwice | src/day_14.c:208-211 | the array gets `d` added at the left-hand index and then at the right-hand one |
| Polymer.AddBothAt | src/day_14.c:208-211 | both produced entries receive the count, twice over when they coincide |
| Polymer.StepFromNext | src/day_14.c:200-212 | one more old entry moves its count to the two entries its rule produces |
| Polymer.StepFromErrPersists | src/day_14.c:200-212 | once a step fails at some entry, the whole step reports it |
| Polymer.StepDoubles | src/day_14.c:200-212 | every pair hands its count on twice, so a step doubles the total |
| Polymer.MaxTo | src/day_14.c:260-265 | the result is at least every count and is one of them, or 0 |
| Polymer.MinTo | src/day_14.c:313-317 | the result is at most the start and every non-zero count, and is the start or one of them |
| Polymer.LeastNotAboveMost | src/day_14.c:232-320 | the template's first element has a non-zero count, so the least-common result never exceeds the most-common one |
| Polymer.FindPolymerPair | src/day_14.c:73-85 | the index of the first equal label, or none |
| Polymer.FindResultOfPair | src/day_14.c:155-166 | the element of the first rule for the pair, or the error of the failed assertion |
| Polymer.PairTable.constructor | src/day_14.c:117-118 | a table with the given labels and every count zero |
| Polymer.PairTable.Step | src/day_14.c:182-217 | the labels stay and the counts become the next table, in which every old entry AB with rule AB -> C gave its count to AC and to CB; a missing rule or label is an error |
| Polymer.PairTable.CountElements | src/day_14.c:245-258 | every element's count: each entry's count added for both its elements, the template's ends once more |
| Polymer.PairTable.MostCommonCount | src/day_14.c:232-268 | the largest element count, halved |
| Polymer.PairTable.LeastCommonCount | src/day_14.c:283-320 | the smallest non-zero element count searched from twice the pair total, halved, as written |
| Polymer.Setup | src/day_14.c:104-139 | a fresh table labelled with the rule pairs whose counts are the template's table, or the error of a template pair without a rule |
| PolymerGrowth.TalliedDot | src/day_14.c:134-138 | weighing a template's table by a per-pair weight is summing that weight over its adjacent pairs |
| PolymerGrowth.ElementTallyDot | src/day_14.c:245-250 | an element's total is its entries' counts weighed by how often the label holds it |
| PolymerGrowth.PairHitsTwice | src/day_14.c:251-258 | every element lies in two adjacent pairs except the ends, which lie in one; adding the ends once more counts each element twice |
| PolymerGrowth.ElementCountsTwice | src/day_14.c:245-258 | the element counts recovered from a string's table are twice the string's element counts |
| PolymerGrowth.Expand | src/day_14.c:200-212 | one step on the string puts the rule's element between the two elements of every adjacent pair |
| PolymerGrowth.ExpandAt | src/day_14.c:200-212 | adjacent pair k of the string becomes pairs 2k and 2k + 1 of the grown string |
| PolymerGrowth.StepFromAt | src/day_14.c:200-212 | entry j of a step's table collects every old count weighed by how much of it goes to j |
| PolymerGrowth.ExpansionEntry | src/day_14.c:200-212 | entry j of the grown string's table equals entry j of the step's table |
| PolymerGrowth.StepIsExpansion | src/day_14.c:182-217 | the table a step makes from a string's table is the table of the grown string: the counts stand for the polymer the puzzle describes |
| PolymerGrowth.StepsAreGrowth | src/day_14.c:347-360 | after any number of successful steps the table is the table of the string grown that many times |
| PolymerGrowth.MinToHalved | src/day_14.c:313-319 | halving the least of doubled counts, searched from twice the start, gives the least count |
| PolymerGrowth.ElementCountsOfGrowth | src/day_14.c:245-258 | after s steps the recovered element counts are twice the grown string's counts, and the pair total is its length less one |
| PolymerGrowth.MostCommonIsTrue | src/day_14.c:232-268 | the most-common result is the number of occurrences of the grown string's most common element |
| PolymerGrowth.LeastCommonAsWritten | src/day_14.c:283-320 | as written, the least-common search starts at the grown string's length less one, not above every count |
| PolymerGrowth.LeastCommonSingleElement | src/day_14.c:296-319 | when the grown string holds one element, the result as written is one less than its number of occurrences |
| PolymerGrowth.LeastCommonExample | src/day_14.c:296-319 | template `NN` with the rule `NN -> N`: the string holds two N's but the result as written is 1 |
| PolymerGrowth.LeastCommonFixedIsTrue | src/day_14.c:283-320 | searched from above every count, the result is the grown string's least non-zero element count |
| PolymerGrowth.LeastCommonFixedIsMin | src/day_14.c:296-319 | the corrected search finds the least count present, searched from the grown string's length |
| PolymerGrowth.CensusFirst | src/day_14.c:310 | a string's first element occurs in it, at most as often as the string is long |
| PolymerGrowth.MinToIsLeast | src/day_14.c:313-317 | searched from a start no smaller than some present count, the search finds the least present count |
| Brackets.OpenerOf | src/day_10.c:88-92 | a closing bracket's partner is an opening bracket |
| Brackets.CloserOf | src/day_10.c:88-92 | an opener's closer is a closing bracket whose partner is that opener |
| Brackets.OpenerPoints | src/day_10.c:134-146 | an opener left open scores the points of its closer, 1 to 4 |
| Brackets.ScanLeavesOpeners | src/day_10.c:78-122 | what the scan leaves open is made of openers and is never longer than the text scanned |
| Brackets.ScanShift | src/day_10.c:78-122 | scanning the tail of a + b from the same openers is scanning b |
| Brackets.ScanConcat | src/day_10.c:78-122 | scanning a + b continues the scan of b from the openers a leaves, or stops where a stops |
| Brackets.CompletionIndex | src/day_10.c:131-150 | the k-th character of the completion closes the k-th opener from the top |
| Brackets.CompletionFromCloses | src/day_10.c:131-150 | scanning the completion from the openers it completes leaves nothing open |
| Brackets.CompletionCloses | src/day_10.c:123-153 | appending the completion to a line that is not corrupted leaves nothing open and no error |
| Brackets.BufferScoreIsCompletionScore | src/day_10.c:131-151 | folding the buffer from the top scores the completion string from its start |
| Brackets.BufferScoreZero | src/day_10.c:131-151 | the autocomplete score is 0 exactly when nothing is left open |
| Brackets.SummaryErrPersists | src/day_10.c:111-120 | once a line stops the program on a failed assertion, later lines change nothing |
| Brackets.MiddleScore | src/day_10.c:164-166 | the reported score is the middle of the sorted scores: one of them, with the lower half no larger and the upper half no smaller |
| Brackets.ScanLine | src/day_10.c:74-122 | the scan of one line over the shared buffer is the reference scan; an incomplete line leaves exactly its open brackets on the buffer below `pos` |
| Brackets.AutocompleteScore | src/day_10.c:131-151 | the score is the buffer folded from the top, times 5 plus the opener's points |
| Brackets.FindScores | src/day_10.c:33-172 | both scores are those of the reference definition over all lines |
| Packets.Field | src/day_16.c:103-111 | a width-bit field read most significant bit first is below 2^width |
| Packets.LiteralGroups | src/day_16.c:122-134 | the literal groups end strictly past where they start and within the bits |
| Packets.PacketAt | src/day_16.c:82-182 | a packet read at pos ends strictly past pos and within the bits |
| Packets.SubsByLength | src/day_16.c:152-161 | sub-packets read by length stop once at least `len` bits have been read since the start |
| Packets.SubsByCount | src/day_16.c:173-179 | sub-packets read by count add exactly that many packets |
| Packets.RoundUp4 | src/day_16.c:188-190 | the padding ends at the least multiple of 4 not before the packet's end |
| Packets.Decode | src/day_16.c:82-215 | the outermost packet's padded end is a multiple of 4 within the bits, and a remainder is reported exactly when it is not all zeros |
| Packets.PacketAtWellFormed | src/day_16.c:82-182 | every packet read has 3-bit version and type, a literal has no sub-packets, an operator's length field fits its width, and length type 1 has that many sub-packets |
| Packets.SubsByLengthWellFormed | src/day_16.c:152-161 | the same for the sub-packets read by length |
| Packets.SubsByCountWellFormed | src/day_16.c:173-179 | the same for the sub-packets read by count |
| Packets.DecodeWellFormed | src/day_16.c:82-215 | the same for the outermost packet |
| Packets.ParsePacket | src/day_16.c:82-182 | the recursive reader with its cursor loops returns the packet and end the reference reader gives |
| Packets.ReadLiteral | src/day_16.c:122-134 | the literal loop gives the reference literal groups |
| Packets.ReadSubsByLength | src/day_16.c:152-161 | the length-delimited loop gives the reference sub-packets |
| Packets.ReadSubsByCount | src/day_16.c:173-179 | the count-delimited loop gives the reference sub-packets |
| Packets.DecodeTransmission | src/day_16.c:82-215 | reading the outermost packet, skipping the padding and scanning for zeros gives the reference decoding |
| Packets.SkipPadding | src/day_16.c:188-190 | the cursor stops at the next multiple of 4 |
| Packets.IsAllZeros | src/day_16.c:195-198 | the answer is whether the rest of the bits are all zeros |
| Packets.Preorder | src/day_16.c:229-241 | the packets of a tree start with the packet itself |
| Packets.VersionsConcat | src/day_16.c:234-238 | the versions of two lists add up |
| Packets.VersionSumIsPreorderSum | src/day_16.c:229-241 | the version sum adds the version of every packet in the tree exactly once |
| Packets.VersionSumsSnoc | src/day_16.c:235-238 | one more sub-packet adds its sum |
| Packets.SumOfVersionNumbers | src/day_16.c:229-241 | the loop over sub-packets gives the version sum |
| Packets.MinIsLeast | src/day_16.c:280-286 | the minimum is one of the values and none is below it |
| Packets.MaxIsGreatest | src/day_16.c:291-297 | the maximum is one of the values and none is above it |
| Packets.ValuesConcat | src/day_16.c:265-297 | the values of a + b are the first failure in a, else in b, else both lists |
| Packets.ValuesElementwise | src/day_16.c:265-297 | the values exist exactly when every packet has a value, and then list them |
| Packets.ValuesStep | src/day_16.c:265-297 | the values of the first i + 1 sub-packets extend those of the first i |
| Packets.ValuesPrefixErr | src/day_16.c:265-297 | a failure among the first i sub-packets is the failure of them all |
| Packets.FindValue | src/day_16.c:255-340 | the recursive evaluator with its loops returns the reference value, or the failed assertion |
| Packets.FoldSubValues | src/day_16.c:262-298 | sum and product from 0 and 1, minimum and maximum from the first sub-packet: the reference value |
| Packets.ValueOfMinMax | src/day_16.c:277-298 | a minimum or maximum packet takes the value of one of its sub-packets and bounds all of theirs |
| Packets.SumBoundsEach | src/day_16.c:265-267 | every entry is at most the sum |
| Packets.ProductZero | src/day_16.c:272-275 | the product is 0 exactly when some entry is 0 |
| Packets.ValueOfSumProduct | src/day_16.c:262-276 | a sum or product packet has sub-packets, all with values; a sum is at least each of them, and a product is 0 exactly when one of them is |
| SnailfishNum.ExplodeAtSpec | src/day_18.c:312-436 | the pair the explode search picks is the leftmost pair of two literals nested inside four pairs; its left value is added to the nearest literal before it and its right value to the nearest literal after it (dropped at either end of the number), it becomes a 0 one level up, and nothing else changes |
| SnailfishNum.ExplodeAtNoneIff | src/day_18.c:504-532 | the explode search finds nothing exactly when no pair of two literals is nested inside four pairs |
| SnailfishNum.DeepPairExplodes | src/day_18.c:513-521 | every pair at depth 4 or more holds a pair that the search explodes, so a pair of two literals is found wherever nesting goes too deep |
| SnailfishNum.ExplodedRightSideHasLiteralSibling | src/day_18.c:326-335 | when the exploding pair is a right side, its sibling is a literal: the C test of the parent's left pointer tells the side correctly |
| SnailfishNum.RedistributedClosedForm | src/day_18.c:338-422 | the literals after an explosion: the left value joins the literals before the pair at their end, the right value those after it at their start |
| SnailfishNum.SplitAtSpec | src/day_18.c:451-484 | the split search splits the leftmost literal of 10 or more into a pair of its rounded-down and rounded-up halves one level deeper, and changes nothing else |
| SnailfishNum.SplitAtNoneIff | src/day_18.c:547-574 | the split search of a pair finds nothing exactly when every literal is below 10 |
| SnailfishNum.NoSplitLeft | src/day_18.c:552-565 | a side the split search passes over has all its literals below 10 |
| SnailfishParse.DigitRun | src/day_18.c:214-216 | the digits read by `%d` are a maximal run of digits from the cursor |
| SnailfishParse.SkipTo | src/day_18.c:232-235 | the skip loop stops at the first position holding the separator, or finds none |
| SnailfishParse.ParseSide | src/day_18.c:209-262 | a side ends just past its separator, inside the text |
| SnailfishParse.ParseAt | src/day_18.c:192-269 | a parsed number is a pair whose text starts with '[' and ends with ']' inside the line |
| SnailfishParse.ParseLines | src/day_18.c:283-296 | the loop over lines gives every line's number in order, and succeeds exactly when every line parses |
| SnailfishParse.DecimalValue | src/day_18.c:214-216 | the decimal text of a literal reads back as that literal |
| SnailfishParse.ParseLiteralShow | src/day_18.c:212-216 | a printed literal followed by its separator reads back as itself |
| SnailfishParse.ParseSideShow | src/day_18.c:209-262 | a printed side followed by its separator reads back as itself |
| SnailfishParse.ParseNestedShow | src/day_18.c:218-229 | a printed nested pair followed by its separator reads back as itself |
| SnailfishParse.ParseAtShow | src/day_18.c:192-269 | a printed pair reads back as itself, and the cursor ends just past it |
| SnailfishParse.ShowSlices | src/day_18.c:151-169 | the printed text of a pair is '[', the left side, ',', the right side, ']' |
| SnailfishParse.ParseLineShow | src/day_18.c:192-269 | printing a number and reading it back gives the number, whatever text follows it |
| SnailfishReduce.ExplodeSpec | src/day_18.c:504-532 | an explosion of the whole number collapses the depths and redistributes the literals at the exploded pair, and removes one pair |
| SnailfishReduce.ExplodeLowersPairCount | src/day_18.c:425-435 | every explosion removes a pair, so explosions alone stop |
| SnailfishReduce.NoExplosionDepths | src/day_18.c:513-521 | with nothing to explode, no literal lies deeper than 4 pairs |
| SnailfishReduce.SiblingDepths | src/day_18.c:312-336 | the two literals of one pair lie at the same depth |
| SnailfishReduce.CostCollapsed | src/day_18.c:425-435 | collapsing a deep pair into one literal never raises the depth cost |
| SnailfishReduce.CostDeepened | src/day_18.c:461-483 | splitting a literal above depth 4 lowers the depth cost; at depth 4 it keeps it |
| SnailfishReduce.SplitWeightDrop | src/day_18.c:466-481 | handing the halves of a literal of 10 or more to its neighbours weighs less than the literal did |
| SnailfishReduce.SplitWeightLess | src/day_18.c:461-483 | a split at depth 4 followed by the explosion it causes lowers the weighted literal sum |
| SnailfishReduce.ExplodeAll | src/day_18.c:592-595 | exploding until nothing explodes leaves nothing to explode |
| SnailfishReduce.ExplodeAllStep | src/day_18.c:592-595 | exploding once and then to the end is exploding to the end |
| SnailfishReduce.ExplodeStepMeasure | src/day_18.c:592-595 | an explosion keeps the potential, does not raise the depth cost and removes a pair |
| SnailfishReduce.DeepLeafExplodes | src/day_18.c:513-521 | a literal deeper than 4 pairs means something explodes |
| SnailfishReduce.DeepSplitExplodes | src/day_18.c:461-483 | splitting a literal at depth 4 makes the new pair the one that explodes next |
| SnailfishReduce.DeepSplitPotential | src/day_18.c:592-598 | with nothing to explode, a split at depth 4 lowers the potential |
| SnailfishReduce.SplitStepMeasure | src/day_18.c:592-598 | with nothing to explode, a split above depth 4 lowers the depth cost: the reduce loop ends |
| SnailfishReduce.IsReducedIff | src/day_18.c:588-600 | a number is reduced (nothing explodes, no literal of 10 or more) exactly when both searches find nothing |
| SnailfishReduce.Reduced | src/day_18.c:588-600 | the reduction ends with neither search finding anything |
| SnailfishReduce.ReducedIsReduced | src/day_18.c:588-600 | the result of reduction is reduced |
| SnailfishReduce.ReducedFixpoint | src/day_18.c:588-600 | reducing a reduced number changes nothing, so reduction is idempotent |
| SnailfishReduce.Reduce | src/day_18.c:588-600 | the explode-first loop, run until a pass changes nothing, gives the reduction of its input |
| SnailfishReduce.Add | src/day_18.c:618-632 | the sum is the pair of the two operands, reduced, and it is reduced |
| SnailfishSum.MagnitudeIsWeightedSum | src/day_18.c:648-667 | the magnitude is the sum of the literals, each times 3 for every left step and 2 for every right step on its path |
| SnailfishSum.MagnitudeExample | src/day_18.c:648-667 | the magnitude of [[1,2],[[3,4],5]] is 143 |
| SnailfishSum.FoldSumReduced | src/day_18.c:738-743 | the sum of two or more numbers is reduced |
| SnailfishSum.SumAll | src/day_18.c:738-743 | the loop adding each further number to a copy of the first gives the left-to-right sum |
| SnailfishSum.MaxMagnitude | src/day_18.c:683-706 | the result bounds the magnitude of every sum of two different numbers and is one of them, or 0 when there are fewer than two numbers |

## Left out

- Reading the input file (`parse_file` in `src/utils.c`), the `printf` of the answers and the freeing of memory are not modelled; each solver takes the lines or the parsed values as parameters.
- The line readers of days 01, 04, 05, 07, 09, 10, 13, 15 and 17 (`sscanf`, `atoi`, `strtok` over a line) are not modelled: those models start from the parsed numbers. Days 16 and 18 are read from the text of a line. For days 02, 06, 08 and 12 the splitting of a line is not modelled either: `Dive` starts from a `Line(word, distance)`, after the `sscanf` of `src/day_02.c:94`; `Lanternfish.ParseFish` starts from the numbers that `split_string_on_char` and `atol` give at `src/day_06.c:60-64`; `Segments.FreshNote` takes the words that the `sscanf` of `src/day_08.c:65` reads; and `Caves.ParseCaves` takes the name pairs split on `-` at `src/day_12.c:110`.
- `hex_str_to_binary_str`, `sort_numbers`, `median` and `mean` in `src/utils.c`: day 16 starts from the bit string, and the sorts are modelled once in `Sorting`, not as the library's quicksort.
- C integer widths are not modelled: every count, sum and coordinate is an unbounded natural or integer. This covers the `int` values of days 01, 02, 03, 07, 08, 09 and 17, the `uint16_t` grid sizes and coordinates of days 05, 13 and 15, the `uint8_t` rule count of day 14, the `size_t` route count of day 12 and the `size_t` totals of days 06, 10, 14 and 16. Puzzle inputs stay far below these limits.
- Packets.ReadLiteral: the `size_t` literal value of `src/day_16.c:122-134` wraps modulo 2^64 after 16 groups; the model keeps the exact value.
- Packets.FindValue: the `size_t` sum and product of `src/day_16.c:262-276` wrap modulo 2^64; the model keeps exact values.
- Packets.Decode: where the C code would read past the end of the bit string, the model returns `Truncated` with the position instead of reading undefined memory.
- SnailfishParse.ParseSide: the `%d` conversion is a maximal run of decimal digits with no sign or leading blanks, and the `(uint8_t)` cast of `src/day_18.c:216` and `:242` is not applied; literals are naturals, so a literal of 256 or more is kept whole.
- SnailfishParse.ParseLine: text after the closing `]` of a line is ignored, as the C code does.
- SnailfishNum.ExplodeAt: the `uint8_t` literal fields of a pair can wrap when a carry is added (`src/day_18.c:357`, `:368`, `:388`, `:412`); the model adds exactly.
- The parent pointers and the copying of snailfish numbers (`copy_snailfish_num`, `src/day_18.c:82-112`) are not modelled: a number is an immutable tree, and the carries of an explosion travel back up the recursion.
- Crabs.FuelNeededPart2: the floor and the ceiling of the floating-point mean (`src/day_07.c:70`, `:76`) are parameters; floating point is not modelled.
- Segments.HardNote: requires that a pattern of 5 or 6 segments comes with patterns of 2 and 4 segments, because the C searches for the 1 and the 4 (`src/day_08.c:211-213`, `:235-237`, `:266-268`, `:293-295`) run past the array otherwise; Segments.DisplayDecoded proves that every note read from a real display meets it.
- Segments.NoteDecoded: requires every output pattern to be among the signals; Segments.DisplayDecoded derives it for patterns read from a display and sorted.
- Octopuses.OctopusGrid.StepsToSynchronise: the C search is unbounded (`src/day_11.c:244-271`); the model takes a `limit` on the number of steps and returns none when no synchronised step comes before it.
- Octopuses.Run: uses the corrected synchronisation test (see Findings), so on a grid whose last row alone matches the top-left energy it keeps searching where the C code stops.
- Diagnostic.MostCommonNumber: uses the corrected majority test (see Findings). Where the count of ones equals `len / 2` rounded down for an odd `len`, the C code fails its assertion (`src/day_03.c:127`); the model takes 0, the more common bit.
- Vents.NumberOfCrossings: uses the corrected bounds (see Findings). Where a segment's end lies past the bound the C code computes, the C code writes past the grid (`src/day_05.c:157-164`); the model's grid holds every segment.
- Basins.FindBasin: requires that every area below 9 that is no low point has a strictly lower neighbour (`Descends`). On a map where two equal areas are each other's lowest neighbour the walk of `src/day_09.c:220-264` never ends (Basins.PlateauCycles shows such a map); puzzle inputs do not have them.
- Basins.ThreeLargestBasinsMultiplied: requires at least three low points, because the C code reads the three largest sizes of the sorted array without checking its length (`src/day_09.c:339-345`).
- Caves.NumberOfRoutes: termination is proved only when no passage joins two big caves (`NoBigPair`); otherwise the C recursion does not end either. Cave names are strings of any length instead of `MAX_CAVE_LEN` characters, and caves are indices into a sequence instead of pointers. A passage listed twice in the input is followed once per listing, as in the C code; the count equals the number of distinct valid routes only when no passage is listed twice (`NoRepeatedLinks`).
- Chiton.LowestTotalRisk: requires every level to be at least 1, as the digits of the puzzle input are. The C code uses a risk of 0 for "not reached yet" (src/day_15.c:167), so a level of 0 could make a reached cell look unreached. That case is not modelled.
- Chiton.FullLowestTotalRisk: requires levels 1..9 for the same reason, and because the tiling wraps from 9 back to 1.
- Polymer.PairTable.Step: the order in which the C loop visits the pairs is not part of the contract; the new counts are stated as a whole.
- Trickshot.FindRanges: the velocity ranges are the ones the C code derives; that they hold every hitting launch is not proved.
- Origami.FoldAll: requires at least one fold, as part 1 takes the first fold's count.
- Brackets.ScanLine: requires a buffer longer than the line, as the C code allocates one of the longest line's length plus one.

## Findings

| source | as written | input that shows it | evidently intended | confidence | as-written member | corrected member |
|---|---|---|---|---|---|---|
| src/day_14.c:296-319 | the least-common search starts at twice the number of pairs, which is one less than the polymer length | template `NN` with the rule `NN -> N`: the only element occurs twice, but the answer is 1 | start the search above every count, so the least count present is found | not executed | PolymerGrowth.LeastCommonExample | PolymerGrowth.LeastCommonFixedIsTrue |
| src/day_11.c:250-262 | the `break` leaves only the inner loop, so the flag that survives is the last row's | a grid of zeros except a 5 at row 1, column 1: reported synchronised | compare every energy and stop at the first mismatch | not executed | Octopuses.LastRowCheckMisfires | Octopuses.OctopusGrid.StepsToSynchronise |
| src/day_03.c:121-128 | the majority test compares the count of ones with `len / 2`, so an odd count one below the half fails the assertion | five numbers of which two have the bit set: `2 == 5 / 2`, yet 0 is the more common bit | compare ones with zeros, `2 * ones` with `len` | not executed | Diagnostic.MostCommonMisfires | Diagnostic.MostCommon |
| src/day_05.c:109-118 | the end coordinate raises the bound only when the start did not | the segment `1,0 -> 3,0`: the bound is x = 1 but the segment is drawn at x = 3 | take the larger of the bound, the start and the end | not executed | Vents.BoundsAsWrittenMissEnd | Vents.FindBounds |
| src/day_12.c:95 | the cave array has one slot per input line | the one-line input `start-end` makes two caves, `start` and `end` | allocate room for two caves per line plus `start` | not executed | Caves.SlotsAsWrittenOverflow | Caves.CaveNamesBound |
