# Valhalla: verified models of its state-heavy parts

Valhalla is a routing engine over tiled graphs. This project models, in Dafny, the parts of it that
carry the most state and the most cases, and proves what each of them is for:

- `Calendar`, `TzRule`, `TzSplit`, `TzMeaning`, `TzRuleTable`, `TzEnumerate`: the normalisation of
  time-zone rules (cutting year-ranged rules of one name until any two ranges are equal or disjoint, in a
  table that grows and is sorted again while the loops run over it), what it does to the meaning of the
  table, and the enumeration of (rule, year) pairs.
- `MergeGraph`, `MergeChain`, `Merge`, `EdgeTracker`: collapsing runs of edges at degree-two nodes into
  pairs of opposite paths, with the bit set that remembers the edges.
- `Tiles`, `TileCacheLRU`, `TileCacheFlat`, `GraphReader`: the three tile caches and the reader over them.
- `ShortcutRecovery`: finding the edges that a shortcut stands for, and the cache of the results.
- `IncidentWatcher`: a file-scanning thread, readers and a changing disk as interleaved steps.
- `TilePath`, `SortedLookup`: tile paths and the binary searches over a tile's tables.
- `EdgeExport`, `Polyline`, `DateRange`: the greedy edge exporter, the polyline decoder and encoder, and
  the date and time test of conditional restrictions.

Objects that the source updates in place are classes with ghost views (`RuleTable`, `EdgeCollapser`,
`Bitset`, `Tracker`, `LruCache`, `FlatCache`, `SimpleCache`, `Reader`, `ShortcutCache`, `Exporter`), loops
are loops, and each method is tied to a specification about which the lemmas speak. `dafny verify
dfyconfig.toml` checks everything. Nothing was executed.

## Results that differ from what one would expect

Each has a lemma at a concrete input and its exact condition.

- `MonthDayTime::canonicalize` drops the year of the date it resolves. The moment is kept exactly if the
  resolved date does not leave the year (`TzRule.CanonicalizeKeepsMoment`); for a table,
  `TzMeaning.Means` says exactly in which years a moment is lost. 31 December 2023, given as the Sunday
  on or before 1 January 2024, becomes 31 December 2024 (`TzRule.NewYear2024`).
- A collapsible node with an allowed edge to itself is reported with that edge twice; without such nodes,
  and only then, no edge is reported twice (`Merge.LoopIsReportedTwice`, `Merge.LoopGraph`). An allowed
  edge into a missing tile is reported only if its start can be passed (`Merge.Covers`).
- Overwriting an LRU entry, and keeping within a hard limit, rely on a byte count that matches the stored
  tiles. It stays right exactly if the given size is the tile's own (in `AfterPut`), and the limit is
  kept, whatever is cached, exactly if the tile is no larger than the size (`TileCacheLRU.LimitIffSized`).
  Both hold for the caller in `src/baldr/graphreader.cc:629` and not for the one at line 590: with a wrong
  count an entry can be evicted while it is overwritten (`TileCacheLRU.SurvivesIff`,
  `TileCacheLRU.FixedSize`), and a tile larger than the fixed size exceeds the limit
  (`TileCacheLRU.FixedSizeTooSmall`).
- `GraphId::Is_Valid` does not check the hierarchy (`valhalla/baldr/graphid.h:149`). An id outside it
  shares a slot of the flat cache with another tile (`TileCacheFlat.StrangeSlots`), and the reader answers
  with that tile exactly while it is cached (`GraphReader.Reader.Answered`, `GraphReader.Reader.PastTheLevel`).
  Otherwise an id past the end of its level ends in an exception if tiles are read from a directory.
- Shortcut recovery subtracts the tolerance from the length in 32 bits: a shortcut shorter than the
  tolerance is never recovered (the condition is part of `Recovers`; `ShortcutRecovery.ShortIsNotRecovered`),
  which does not happen to a shortcut exactly as long as its edges (`ShortcutRecovery.ExactIsRecovered`).
  Its walk is bounded because the graph builder never stores a length below 1
  (`src/mjolnir/directededgebuilder.cc:11`, `:38`); with edges of length 0 it can go on for any number of
  steps (`ShortcutRecovery.ZeroLengthsRunOn`).
- `GetTileId` also accepts a path from the root made of three-digit groups only, the first of them being
  the level (`TilePath.RootedTile`); for such a path without its leading separator it steps past the start
  of the string, an outcome of its own in the model (`BeforeStart`, `TilePath.StartIsPassed`).
- The search for the next departure of a line relies on ends that are ordered, which the sort order gives
  for fixed departures only; a frequency that still runs can be missed (`SortedLookup.RunningIsMissed`).
  The first workable departure is found exactly if all departures of the line behind it that halving
  meets on its way to it are workable as well (`SortedLookup.SearchReaches`).
- A frequency with interval 0 is waited on for ever, exactly if it has begun before now and not run out
  (`SortedLookup.FrequencyEnds`, `SortedLookup.ZeroIntervalRunsOn`). The tile builder keeps such
  departures out: it takes them for fixed ones (`src/mjolnir/convert_transit.cc:313`, `:1131`).
- A range that ends on 29 February also covers 1 March of years without that day, unless it begins in
  March (`DateRange.CyclicUnlessLeapsOver`).
- A range that ends with the fifth of a weekday, which stands for the last one, runs on into the next month
  where there are only four (`DateRange.NthBetweenMonths`, `DateRange.FebruaryRunsOver`); and within
  one month, weekday numbers decide whether a range wraps around the year (`DateRange.NthWithinMonth`,
  `DateRange.OctoberIsAllYear`).
- The n-th weekday of every month takes the mask of the days of the week for the number of a weekday. That
  is right for Sunday and Monday alone; for Tuesday, Wednesday and all other masks that are such numbers
  the restriction is never active in weeks 1 to 4 (`DateRange.OnlySundayAndMonday`).
- Stepping through the rules of a name is in the order of time exactly if the table has the rules of each
  year in the order of their days (`TzEnumerate.WalkInTimeOrder`), which the sort order does not give: the
  Sunday on or after 8 March comes before 10 March (`TzEnumerate.SundayAfterTenth`).
- The exporter never starts a list with a shortcut, but a list can go on over one of the same names
  (`EdgeExport.ShortcutIsExported`,
  `EdgeExport.ShortcutIsNotSeparate`). No list does if no shortcut of the same names leaves the end of an edge
  that can be exported (in `AllKinds`), which is exactly when no list can with its first step
  (`EdgeExport.SeparateIff`).
- A time range that wraps around midnight leaves out the two minutes it is given by, and one that wraps
  within an hour is empty (`DateRange.TimeCyclicIff`, `DateRange.TimeSurprises`).
- The polyline encoder gives the format exactly for differences of 31 bits (`Polyline.Serialize`), which
  coordinates in millionths of a degree never exceed.

## Model

| member | source | states |
|---|---|---|
| Calendar.FromSerial | src/baldr/tz_alt.cpp:915-940 | every serial day has an existing date with that serial number, so that resolved days can be read back |
| Calendar.SerialOrder | src/baldr/datetime.cc:885-922 | comparing serial days is comparing dates, for all existing dates |
| TzRule.NamedDay | src/baldr/tz_alt.cpp:915-940 | the day that each form of a rule names: for a weekday, it is that weekday, and lies in the last seven days of the month, in the seven days up to the date, or in those from the date on |
| TzRule.LastSundayOfMarch2024 | src/baldr/tz_alt.cpp:915-986 | the last Sunday of March 2024 is 31 March, and is canonicalised to that |
| TzRule.LessIsLexicographic | src/baldr/tz_alt.cpp:1206-1219 | the sort order of rules is the lexicographic one of name, first year, month, last year and day, in which the last weekday of a month counts as the 31st |
| TzRule.CountedIff | src/baldr/tz_alt.cpp:1206-1219 | an effect is in force exactly if a rule of the name whose range holds the year has that time of day, saving, letters and day |
| TzRule.LeavesYearIsExact | src/baldr/tz_alt.cpp:915-940 | a rule's day resolves outside the year exactly in the two guarded cases, before 1 January or past 31 December |
| TzRule.CanonicalizeKeepsMoment | src/baldr/tz_alt.cpp:949-986 | canonicalising keeps the moment if and only if the day does not leave the year, and doing it twice is doing it once |
| TzRule.SundayBeforeNewYear | src/baldr/tz_alt.cpp:949-986 | a rule and a year in which the moment is lost: in a year that begins on a Monday, the Sunday on or before 1 January moves by a year |
| TzRule.CountPermuted | src/baldr/tz_alt.cpp:1206-1219 | re-sorting a table never changes how often an effect is in force |
| TzSplit.CutKeepsEffects | src/baldr/tz_alt.cpp:1328-1391 | in all five split cases the pieces are in force in exactly the years, under the names and with the effects of the two rules cut, whether effects are compared as given, by the month and day they resolve to, or by the moment |
| TzSplit.CutUsesSlack | src/baldr/tz_alt.cpp:1328-1391 | each new rule uses up one unit of slack, which makes the growing loops end |
| TzSplit.CutKeepsEdges | src/baldr/tz_alt.cpp:1328-1391 | a cut makes no new boundary between years and loses none |
| TzSplit.SplitKeepsEffects | src/baldr/tz_alt.cpp:1328-1391 | the same for the whole segment of the table around the two rules |
| TzSplit.VisitedStaySettled | src/baldr/tz_alt.cpp:1402-1413 | a cut and a re-sort in the inner loop never bring a rule that could still overlap before the place reached |
| TzSplit.BoundAfterSplit | src/baldr/tz_alt.cpp:1402-1413 | after a cut some later rule proves that nothing starting with the first rule can outlast it |
| TzSplit.PassFinishes | src/baldr/tz_alt.cpp:1402-1413 | when the inner loop ends, the first rule is equal to or apart from everything behind it, also after all later cuts |
| TzSplit.LastOneFinishes | src/baldr/tz_alt.cpp:1402-1413 | when the outer loop ends, any two rules of the name have equal or disjoint ranges |
| TzRuleTable.RuleTable.Split | src/baldr/tz_alt.cpp:1328-1391 | the insertions and shifted indices leave the table with the pieces in their places and nothing else changed, and e grows by the number of new rules; the assertion at its head holds at every call |
| TzRuleTable.RuleTable.CutOverlaps | src/baldr/tz_alt.cpp:1398-1413 | terminates although e grows; any two rules become equal or apart, all stay in order, and every effect under every name in every year is in force as often as before |
| TzRuleTable.RuleTable.TakeTurn | src/baldr/tz_alt.cpp:1404-1412 | one turn of the inner loop keeps the invariant of both loops and stays below the bound on the number of rules |
| TzRuleTable.RuleTable.CanonicalizeSingleYears | src/baldr/tz_alt.cpp:1414-1418 | canonicalises exactly the rules of a single year, to the date of the day that NamedDay describes |
| TzMeaning.SettledEffect | src/baldr/tz_alt.cpp:1414-1418 | that pass keeps what each rule in force stands for: a rule of a single year shows the month and day it resolved to, all others are as given, and moments stay unless they lie in another year |
| TzMeaning.SinglesAre | src/baldr/tz_alt.cpp:1414-1418 | after cutting, a rule is of a single year exactly if the ranges of its name had edges on both sides of that year before |
| TzMeaning.SettledMeans | src/baldr/tz_alt.cpp:1398-1419 | cutting and canonicalising the rules of one name together keep their meaning in every year, in the exact sense of Means |
| TzMeaning.MomentLost | src/baldr/tz_alt.cpp:949-986 | a moment that lies in another year is not a moment of the canonicalised table |
| TzRule.RuleOfOneYear | src/baldr/tz_alt.cpp:1414-1418 | a table with a single rule of one year that leaves it is one whose moment is lost |
| TzRuleTable.RuleTable.TrimEarly | src/baldr/tz_alt.cpp:1434-1444 | erases, of the rules that end before the minimum year, all but the last, or all if the rule behind them is in force in it |
| TzRuleTable.RuleTable.TrimLate | src/baldr/tz_alt.cpp:1445-1453 | erases exactly the rules that start after the maximum year |
| TzRuleTable.RuleTable.NormaliseName | src/baldr/tz_alt.cpp:1425-1455 | the rules of one name end up pairwise equal or apart, with the same meaning in all supported years |
| TzRuleTable.RuleTable.SplitOverlaps | src/baldr/tz_alt.cpp:1421-1457 | on any sorted table of rules that end no earlier than they start: any two rules of one name have equal or disjoint ranges, nothing starts after the supported years, at most one rule of a name ends before them, and the rules of the last year before them are kept; rules of the same several years are in the order of their months; for every name and supported year, the same effects are in force equally often, with days as given, or as resolved where the original ranges have edges on both sides of the year; and the moments are the same exactly if in such a year no day resolves into another year |
| TzEnumerate.FindNext | src/baldr/tz_alt.cpp:1533-1558 | on a normalised table, the result is the pair right after the given one in year-major order, and none exactly at the last pair of the name |
| TzEnumerate.EarlierIsLexicographic | src/baldr/tz_alt.cpp:1533-1558 | the order of the steps is the lexicographic one of year and place |
| TzEnumerate.FindNextIn | src/baldr/tz_alt.cpp:1502-1524 | the same within the run of rules of one name |
| TzEnumerate.FindPrevious | src/baldr/tz_alt.cpp:1466-1491 | the result is the pair right before the given one, and none exactly at the first pair |
| TzEnumerate.FollowsIsOneToOne | src/baldr/tz_alt.cpp:1466-1558 | going forward and going back are exact inverses, except at the two ends |
| TzEnumerate.WalkVisitsAllOnce | src/baldr/tz_alt.cpp:1502-1558 | any walk along the successor relation from the first pair to the last visits every (rule, year) pair of the name, each once, year by year and within a year in the order of the table |
| TzEnumerate.WalkName | src/baldr/tz_alt.cpp:1533-1558 | iterating from the first pair of a name terminates at the last pair, and has visited all pairs of the name, each once, year by year and within a year in the order of the table |
| TzEnumerate.WalkNameIn | src/baldr/tz_alt.cpp:1502-1524 | the same with the form that is given the run of rules of the name |
| TzEnumerate.WalkInTimeOrder | src/baldr/tz_alt.cpp:1493-1558 | where no day leaves its year, the walk is in the order of time if and only if the table has the rules of each year in the order of their days |
| TzEnumerate.SundayAfterTenth | src/baldr/tz_alt.cpp:1206-1219 | two rules of a normalised table that the sort order puts the wrong way round |
| TzEnumerate.FindFirstStandard | src/baldr/tz_alt.cpp:1562-1574 | terminates; finds the first pair in that order without saving, or shows that the name has no such rule |
| MergeGraph.NodesReachableFrom | src/baldr/merge.cc:94-136 | both ends are given, in their order, exactly for nodes of the graph at which no edge, allowed or not, forbids merging and exactly two places have allowed edges, which lead to two different nodes |
| MergeGraph.NeighboursAre | src/baldr/merge.cc:94-136 | the neighbours used throughout are those of exactly such nodes |
| MergeGraph.FindEdgeBetween | src/baldr/merge.cc:162-175 | the edge at the first place that is allowed and leads to the node; none exactly if no allowed edge leads there |
| MergeGraph.EdgeBetweenIs | src/baldr/merge.cc:162-175 | an edge is found if and only if an allowed one leads there, and what is found is one |
| MergeGraph.NextNode | src/baldr/merge.cc:138-158 | the assertion in it holds whenever the previous node is a neighbour, and the result is the other neighbour |
| MergeChain.DistinctStates | src/baldr/merge.cc:214-255 | a walk that does not go through its first step again never repeats a step |
| MergeChain.NoReversal | src/baldr/merge.cc:214-255 | a walk never goes over an edge and later back over it |
| MergeChain.InnerOnce | src/baldr/merge.cc:214-255 | a walk goes through no node twice |
| MergeChain.StartIsNotPassed | src/baldr/merge.cc:214-255 | without loops, a walk that cannot go on from its end has not gone through its start, on graphs with missing reverse edges too |
| MergeChain.ChainEdgesDiffer | src/baldr/merge.cc:182-255 | the edges of a reported path and of its reverse are all different |
| Merge.EdgeCollapser.Walk | src/baldr/merge.cc:214-255 | terminates on every finite graph; builds the edges along the walked nodes and back, marks exactly these, and ends back at the origin, at a node that cannot be passed, or behind the first edge that has none back |
| Merge.EdgeCollapser.Explore | src/baldr/merge.cc:182-209 | on any graph, reports either nothing, changing nothing, or one run of nodes through the node, as far as it can be walked both ways, and its reverse, all of whose edges are newly marked |
| Merge.KeptAfter | src/baldr/merge.cc:182-209 | marks come in opposing pairs and both-or-neither at collapsible nodes, over any sequence of calls |
| Merge.NoDuplicatesAfter | src/baldr/merge.cc:182-209 | an edge reported by one call is never reported by another |
| Merge.ReverseIsOpposite | src/baldr/merge.cc:182-209 | the reported reverse is the edge-by-edge opposite of the forward path, for any pairing of opposing edges |
| Merge.TrailIsRoute | src/baldr/merge.cc:182-255 | the edges collected along the walked nodes lead from each to the next, through nodes at which no edge forbids merging |
| Merge.RunsAreGood | src/baldr/merge.cc:182-255 | both reported paths are contiguous; without loops they can be extended at neither end, or go once round a cycle of different nodes |
| Merge.LeftOverIsStuck | valhalla/baldr/merge.h:112-131 | on any graph without loops, an edge left for the second loop cannot be merged at its start, nor at its end unless a parallel edge is found first |
| Merge.LeftOverIsMaximal | valhalla/baldr/merge.h:112-131 | an edge left for the second loop cannot be merged at either end |
| Merge.LoopIsReportedTwice | src/baldr/merge.cc:182-255 | on any graph, a loop at a collapsible node is reported twice |
| Merge.LoopGraph | src/baldr/merge.cc:182-255 | a graph of two nodes with such a loop |
| Merge.PairsSuffice | src/baldr/merge.cc:94-136 | graphs whose allowed edges come in pairs of two different opposing edges have no such loops |
| Merge.EdgeCollapser.MergeAll | valhalla/baldr/merge.h:86-138 | on any graph: every path goes along edges of the graph from node to node, each the first allowed one to the next node or a single allowed edge, and through nodes at which no edge forbids merging and whose two allowed edges lead to the node before and the node after; every allowed edge is on a path unless it leads into a missing tile from a node that cannot be passed; no edge is on two if and only if no collapsible node has a loop, and then every path is maximal; with paired edges every path lies between nodes that cannot be passed or goes once round a cycle of different nodes |
| EdgeTracker.Bitset.Set | src/baldr/edgetracker.cc:9-14 | sets one bit and no other, and fails exactly out of bounds |
| EdgeTracker.Bitset.Get | src/baldr/edgetracker.cc:16-21 | reads the bit, and fails exactly out of bounds |
| EdgeTracker.Tracker.constructor | valhalla/baldr/edgetracker.h:61-79 | the prefix sums give each tile a stretch of bits of its own, and no edge is in the set |
| EdgeTracker.Tracker.Set | src/baldr/edgetracker.cc:29-33 | adds that edge to the set of edges and no other |
| EdgeTracker.Tracker.Get | src/baldr/edgetracker.cc:23-27 | is membership in the set of edges |
| TileCacheLRU.LruCache.Get | src/baldr/graphreader.cc:308-318 | finds the tile of the id or shows that it is not held; exactly that entry moves to the front, the others keep their order |
| TileCacheLRU.LruCache.TrimToFit | src/baldr/graphreader.cc:320-332 | keeps the longest front part that leaves the required room, frees the rest, and no subtraction wraps while the byte count is right |
| TileCacheLRU.LongestFitUnique | src/baldr/graphreader.cc:320-332 | that front part is unique, so that what is dropped is the shortest suffix that does |
| TileCacheLRU.LruCache.Put | src/baldr/graphreader.cc:338-377 | refuses exactly tiles larger than the cache; otherwise the tile is in front, behind it the other entries in order, under a hard limit as many as the byte count allows; an entry to be overwritten may be evicted only when that count is wrong, exactly then none is left; the count is right afterwards exactly if the given size is the tile's |
| TileCacheLRU.SurvivesIff | src/baldr/graphreader.cc:338-360 | with any byte count, an entry survives being overwritten by a larger tile exactly if some front part leaves a count that has not wrapped and allows for the growth |
| TileCacheLRU.FixedSize | src/baldr/graphreader.cc:578-592 | a tile put under the fixed size leaves a wrong count, and is evicted when it is put again |
| TileCacheLRU.FixedSizeTooSmall | src/baldr/graphreader.cc:578-592 | a tile larger than the fixed size is stored within a hard limit smaller than it |
| TileCacheLRU.LimitIffSized | src/baldr/graphreader.cc:338-377 | from a right count, whatever is cached, a Put under a hard limit keeps the tiles within it if and only if the tile is no larger than the size given for it |
| TileCacheLRU.LruCache.Contains | src/baldr/graphreader.cc:288-292 | tells whether an entry of the id is held |
| TileCacheLRU.FitBehindHead | src/baldr/graphreader.cc:338-360 | trimming with the entry to be overwritten in front never reaches it, for any old and new size up to the maximum |
| TileCacheLRU.LruCache.Trim | src/baldr/graphreader.cc:304-306 | afterwards the cache is within its maximum, with the longest front part that is |
| Tiles.WorldOfTiles | src/baldr/tilehierarchy.cc:11-45 | the tiles of the hierarchy are 4050, 64800 and twice 1036800 |
| Tiles.WrappedIsModulo | src/baldr/graphreader.cc:320-332 | byte counts are taken modulo 2^64 |
| TileCacheFlat.SlotsAreDistinct | src/baldr/graphreader.cc:170-176 | tiles of the hierarchy have slots in range, each its own |
| TileCacheFlat.SlotIs | src/baldr/graphreader.cc:170-176 | the slots of the levels come one after the other, at 0, 4050, 68850 and 1105650 |
| TileCacheFlat.StrangeSlots | valhalla/baldr/graphreader.h:148-165 | an id outside the hierarchy has a slot in range exactly if it is some tile's slot |
| TileCacheFlat.FlatCache.Get | src/baldr/graphreader.cc:206-212 | reads the tile of whichever hierarchy tile owns the slot, which for tiles of the hierarchy is their own |
| TileCacheFlat.FlatCache.Put | src/baldr/graphreader.cc:214-220 | the slot's owner is given the tile, the last one put wins, and past the index nothing is promised; for tiles of the hierarchy it is a map update |
| TileCacheFlat.SimpleCache.Put | src/baldr/graphreader.cc:265-268 | the first tile put under an id wins, and is returned |
| GraphReader.Reader.GetGraphTile | src/baldr/graphreader.cc:552-632 | with each of the three caches and any valid id, the answer is what loading directly gives, the exceptions of a too large tile and of an id past its level included, except exactly for an id outside the hierarchy that hits the slot of a tile that a flat cache holds; the hard limit is kept by the caller that passes the tile's own size |
| GraphReader.Reader.DirectIs | src/baldr/graphreader.cc:552-632 | the direct answer, written out: the tile of the level and tile id, refused by a smaller LRU cache by 1024 bytes or its own size, or the exception of an id past its level |
| GraphReader.Reader.Run | src/baldr/graphreader.cc:552-632 | the same over any run of requests and trims, where a flat cache holds what was loaded since the last trim |
| GraphReader.Reader.PastTheLevel | valhalla/baldr/graphreader.h:148-165 | an id past the end of level 0 is answered with the first tile of level 1 while that is cached; otherwise with nothing from an extract and with an exception from a directory |
| ShortcutRecovery.RecoverShortcut | src/baldr/shortcut_recovery.h:98-202 | for every shortcut whose walk is bounded: recovers if and only if the first-fit walk reaches the end within the tolerance, and then exactly that walk, a contiguous path from begin to end, whose first edge is the first one that the shortcut supersedes, and of whose later edges each is the first that is no shortcut, not under construction, of the same signature and not back; a path on which these edges are the only ones of their kind, and whose lengths fit, is recovered; without edges of length 0 it takes at most 2 * length + 4 steps |
| ShortcutRecovery.WalkIsBounded | src/baldr/shortcut_recovery.h:134-189 | no walk of edges of length at least 1 goes on past 2 * length + 3 edges, although the tolerance grows with every edge |
| ShortcutRecovery.NoZeroLengthsBounded | src/baldr/shortcut_recovery.h:134-189 | so every search over such edges ends, which is what the recovery requires |
| ShortcutRecovery.WalksAgree | src/baldr/shortcut_recovery.h:98-202 | what is recovered is determined: two walks agree as far as both go |
| ShortcutRecovery.RecoveredLength | src/baldr/shortcut_recovery.h:128-202 | the summed length is at least the shortcut's less the tolerance, and from two edges on at most the shortcut's plus the tolerance; no step turns back |
| ShortcutRecovery.RecoveredEdges | src/baldr/shortcut_recovery.h:111-170 | the first edge of a recovery is the first superseded one at its node, and each later one the first alike |
| ShortcutRecovery.OnlyWayIsRecovered | src/baldr/shortcut_recovery.h:98-202 | if at each step one edge alone can be taken and the lengths fit, that path and no other is recovered |
| ShortcutRecovery.ShortIsNotRecovered | src/baldr/shortcut_recovery.h:190-198 | a shortcut of 1 m for two edges of 1 m is within the tolerance and not recovered, because 1 - 2 wraps |
| ShortcutRecovery.ExactIsRecovered | src/baldr/shortcut_recovery.h:190-198 | a shortcut exactly as long as its edges, of at least 1 m each, is recovered |
| ShortcutRecovery.ZeroLengthsRunOn | src/baldr/shortcut_recovery.h:134-189 | without the lower bound on lengths, a graph on which the walk never ends |
| ShortcutRecovery.CircleIsNotBounded | src/baldr/shortcut_recovery.h:134-189 | that graph does not meet the requirement of the recovery |
| ShortcutRecovery.ReversedIsPath | src/baldr/shortcut_recovery.h:54-81 | the opposites of the edges, in reverse order, are a path from end to begin, of the same length if opposing edges have equal lengths |
| ShortcutRecovery.ReversedEdges | src/baldr/shortcut_recovery.h:54-81 | the edge at each place of the reversed list is the opposing edge of the one at the mirrored place |
| ShortcutRecovery.ShortcutCache.constructor | src/baldr/shortcut_recovery.h:22-90 | every edge with a shortcut mask is prefilled, each with the outcome of recovering it, or with the opposing edges, in reverse, of one that it is the opposite of |
| ShortcutRecovery.CachedIsCacheable | src/baldr/shortcut_recovery.h:54-82 | what is cached either way is the shortcut alone or a path from its begin to its end within the tolerance |
| ShortcutRecovery.ShortcutCache.Get | src/baldr/shortcut_recovery.h:230-238 | both for every answer, cached or not; the length bounds where opposing edges have equal lengths |
| IncidentWatcher.LockingKept | src/baldr/incident_singleton.h:130-158 | readers are inside only once the watcher is initialised, one at a time unless the keys are fixed, and never lose the entry they have found |
| IncidentWatcher.KeysFixedUnderReaders | src/baldr/incident_singleton.h:130-158 | no step changes the key set while a reader is inside; without locks it never changes after the start |
| IncidentWatcher.ProvenanceKept | src/baldr/incident_singleton.h:345-362 | every cached or returned tile was stored by the watcher for that id, and was once that id's file content |
| IncidentWatcher.FreshnessKept | src/baldr/incident_singleton.h:240-311 | at every moment, every tracked tile whose file is older than the last scan is cached as its file says |
| IncidentWatcher.SightingsKept | src/baldr/incident_singleton.h:301-308 | after a completed scan no tile that it did not see is still cached |
| IncidentWatcher.SafeReads | src/baldr/incident_singleton.h:345-362 | over all interleavings, from the start: readers get nothing or a tile stored for that id, under a fixed key set |
| IncidentWatcher.LookupKeepsId | src/baldr/incident_singleton.h:345-362 | while a lookup lasts its id stays the one asked for |
| IncidentWatcher.AnswerIsCached | src/baldr/incident_singleton.h:345-362 | a lookup is answered with the tile cached for its id, or with nothing if none is, and with nothing else |
| IncidentWatcher.AnswerIsTheFile | src/baldr/incident_singleton.h:345-362 | while cache and disk agree, a tracked tile is answered with what its file says, and with nothing if there is no file or it cannot be read |
| IncidentWatcher.AFileIsServed | src/baldr/incident_singleton.h:238-362 | for any tile and content, a whole run of 13 steps from the start in which the file is scanned and a reader is given its content |
| IncidentWatcher.ScanGoesOn | src/baldr/incident_singleton.h:238-332 | no reachable state of a scan blocks: the watcher, or the reader inside that it waits for, has a step that leads nearer to the end |
| IncidentWatcher.ScanCanEnd | src/baldr/incident_singleton.h:238-332 | from every reachable state of a scan, such steps alone lead to its end |
| IncidentWatcher.Converges | src/baldr/incident_singleton.h:240-332 | if nothing changes on disk from a scan's beginning on, the cache equals the disk from the end of that scan on, whatever times the files are stamped with |
| IncidentWatcher.CalmAnswers | src/baldr/incident_singleton.h:240-362 | after the end of a scan since whose beginning nothing has changed on disk, every lookup of a tracked tile is answered with what its file says |
| TilePath.JoinedAt | src/baldr/graphtile.cc:470-487 | each position of the printed groups holds a separator or the one digit of the id that belongs there |
| TilePath.PlaceDigits | src/baldr/graphtile.cc:470-487 | no digit is written on a separator or out of bounds, and the result is the zero-padded groups of the id |
| TilePath.FileSuffix | src/baldr/graphtile.cc:430-490 | fails exactly for a wrong level or an id past the level's last tile; otherwise level, groups and suffix; without a given level, the first wrong ids are 4050, 64800 and 1036800 |
| TilePath.PathsDiffer | src/baldr/graphtile.cc:430-490 | two tiles have one path exactly if they are one tile |
| TilePath.PathOnLevel0 | src/baldr/graphtile.cc:430-490 | the path of tile 49 of level 0 |
| TilePath.PathOnLevel1 | src/baldr/graphtile.cc:430-490 | the path of the last tile of level 1 |
| TilePath.PathOnLevel2 | src/baldr/graphtile.cc:430-490 | the path of the last tile of level 2 |
| TilePath.PathOnLevel3 | src/baldr/graphtile.cc:430-490 | the path of tile 1000000 of the transit level |
| TilePath.GetTileId | src/baldr/graphtile.cc:493-594 | for every string and every tile: the tile is found if and only if the string is a path of that tile, in any directory, with any extension; steps past the start exactly on strings of groups only |
| TilePath.AssembledIff | src/baldr/graphtile.cc:553-593 | level and groups make up a tile exactly if they are that tile's |
| TilePath.StartIsPassed | src/baldr/graphtile.cc:525-551 | a string on which the walk steps past the start |
| TilePath.RootedTile | src/baldr/graphtile.cc:493-594 | a path from the root made of groups only that is a tile |
| TilePath.PrintAndParse | src/baldr/graphtile.cc:430-594 | reading back a printed path gives the tile's base, for any directory prefix and any extension |
| SortedLookup.FindWorkable | src/baldr/graphtile.cc:999-1021 | on any line the binary search comes to a workable departure or to the end, and to the first workable one exactly if the way to it is free; where ends are ordered, as on a line of fixed departures, it always is |
| SortedLookup.SearchReaches | src/baldr/graphtile.cc:999-1021 | the first workable departure is found if and only if all places behind it that halving passes on its way to it, and that belong to the line, are workable |
| SortedLookup.RunningIsMissed | src/baldr/graphtile.cc:999-1021 | three frequencies with ends out of order, of which the search misses the one that still runs |
| SortedLookup.FirstIsNext | src/baldr/transitdeparture.cc:147-161 | by the sort order, the first suitable departure is one with the least time |
| SortedLookup.GetNextDeparture | src/baldr/graphtile.cc:987-1059 | on any line: the answer that the first departure not passed over asks for, from the place on that the search comes to; where ends are ordered, that of the first deciding departure in sort order, or none exactly if there is none; what is answered is of the line, accessible where that is asked for, runs on the day by its own bit up to the end day, or else on the day of the week, and is a fixed departure not before now or the fewest intervals of a frequency; on a line of fixed departures it is the earliest one of all that meet this, none exactly if there is none, and otherwise the exception of an accessible one without its schedule |
| SortedLookup.JudgeIs | src/baldr/graphtile.cc:1026-1034 | a departure is taken, passed over or refused exactly by access, schedule index and the days of its schedule |
| SortedLookup.EarliestIs | src/baldr/graphtile.cc:987-1059 | on a line of fixed departures the first that decides is the earliest one that suits the query |
| SortedLookup.RunsToday | valhalla/baldr/transitschedule.h:62-65 | of two departures whose schedules run on different days, the answer is the one of the day asked for |
| SortedLookup.LessIsByKeys | src/baldr/transitdeparture.cc:147-161 | the sort order of departures is by line, fixed ones first, time and trip |
| SortedLookup.FirstInterval | src/baldr/graphtile.cc:1039-1045 | the fewest whole intervals that lead to a time not before now, unless the frequency runs out before |
| SortedLookup.FrequencyEnds | src/baldr/graphtile.cc:1042-1045 | the loop over the intervals comes to an end exactly if the interval is not 0 or there is nothing to wait for |
| SortedLookup.GetAccessRestrictions | src/baldr/graphtile.cc:1194-1233 | the result has the entries of the table for the edge and one of the modes, each as often as the table, and no others, in sorted order |
| EdgeExport.Exporter.Next | src/valhalla_export_edges.cc:72-114 | an unmarked edge of the same names that leaves the end node, or none if there is none |
| EdgeExport.Exporter.GoForward | src/valhalla_export_edges.cc:278-289 | terminates on every graph; extends the list contiguously, apart from everything listed before, until nothing of the same names can be taken from its end |
| EdgeExport.Exporter.GoBackward | src/valhalla_export_edges.cc:292-304 | the same at the other end, over opposing edges |
| EdgeExport.Exporter.BuildList | src/valhalla_export_edges.cc:263-304 | the list from one edge is contiguous and can be extended at neither end |
| EdgeExport.FreshIsApart | src/valhalla_export_edges.cc:230-304 | an edge not marked in both directions is neither a listed edge nor the opposing edge of one |
| EdgeExport.OneMoreList | src/valhalla_export_edges.cc:216-304 | each new list keeps every edge, in either direction, in at most one place of the whole export |
| EdgeExport.Exporter.ExportAll | src/valhalla_export_edges.cc:216-304 | with a total opposing involution: all lists are contiguous and no edge is exported twice in either direction; if opposing edges are alike, each list has one name, every edge that qualifies is exported in one of its directions, and every exported edge qualifies but for being a shortcut, which none is if no shortcut of the same names leaves the end of an edge that qualifies; all edges end up marked; no transit edge is listed, no ferry unless ferries are asked for, and no edge without a name unless such are asked for |
| EdgeExport.ShortcutIsExported | src/valhalla_export_edges.cc:72-114 | a graph on which the list of the first edge takes a shortcut |
| EdgeExport.SeparateIff | src/valhalla_export_edges.cc:72-114 | that condition holds if and only if no shortcut is a candidate for the first step of a list |
| Polyline.RoundTrip | scripts/loop_route_orchestrator.py:80-114 | decoding the encoding of any sequence of points gives it back |
| Polyline.KnownText | valhalla/midgard/encoded.h:171-208 | the text of one point, from the origin at 0 and 0 |
| Polyline.DecodableIff | scripts/loop_route_orchestrator.py:88-112 | a string can be decoded exactly if its last number is complete and its numbers are even in number; it gives one point for two numbers |
| Polyline.Decode | scripts/loop_route_orchestrator.py:80-114 | the decoder inverts the encoder, and runs past the end exactly on strings that are cut off |
| Polyline.Encode | valhalla/midgard/encoded.h:171-208 | the encoder gives the format, and decoding it the points, for all points within 536 degrees |
| Polyline.Serialize | valhalla/midgard/encoded.h:178-191 | the shift, the complement and the casts in 32 bits give the format exactly for numbers from -2^30 to 2^30 - 1 |
| Polyline.TwosComplement | valhalla/midgard/encoded.h:178-191 | the casts, the shift and the complement are those of 32-bit integers |
| DateRange.InDateRange | src/baldr/datetime.cc:766-930 | for every year, with both days, one or none: the day lies in the cyclic interval from begin to end, or is the 1 March that stands for a missing 29 February; for whole months, the month lies in the cyclic interval of months; for n-th weekdays, the comparison of the days of this year that the two choices of years come to |
| DateRange.NthDay | src/baldr/datetime.cc:843-877 | weeks 1 to 4 of a weekday are the day of the n-th seven days of the month that is the weekday, at both ends of a range, and week 5 is so at the end; without a week it is the day itself |
| DateRange.FifthIsLast | src/baldr/datetime.cc:843-860 | the fifth weekday at the beginning is the one of the last seven days of the month |
| DateRange.GivenIs | src/baldr/datetime.cc:765-805 | which range the test is made for, from the months, days and weeks that are given |
| DateRange.CycleByPlaces | src/baldr/datetime.cc:885-922 | the cyclic interval is that of the places of the days in a leap year |
| DateRange.CyclicUnlessLeapsOver | src/baldr/datetime.cc:807-824 | the date test is the cyclic interval exactly if it is not that 1 March |
| DateRange.NthBetweenMonths | src/baldr/datetime.cc:826-877 | between different months, the weekday test is the cyclic interval exactly if the day is not one of the seven after the last such weekday, of a month without a fifth |
| DateRange.NthWithinMonth | src/baldr/datetime.cc:830-841 | within one month, exactly when the weekday test is the cyclic interval up to the day that the end stands for |
| DateRange.FebruaryRunsOver | src/baldr/datetime.cc:862-873 | a range from January, or from the first of a weekday in February, to the last of that weekday in February covers 1 March in all years without 29 February |
| DateRange.OctoberIsAllYear | src/baldr/datetime.cc:830-841 | from the first Saturday to the last Sunday of October, all days of all other months are in the range |
| DateRange.OnlySundayAndMonday | src/baldr/datetime.cc:765-783 | the n-th weekday of every month is active on the n-th such day exactly for Sunday and Monday, and never for the other masks up to 8 |
| DateRange.TimeCyclicIff | src/baldr/datetime.cc:924-938 | exactly when the time test is the cyclic interval of minutes |
| DateRange.Masks | src/baldr/datetime.cc:731-763 | the seven masks stand for Sunday to Saturday in order, and the empty one for every day |
| DateRange.MasksJoined | src/baldr/datetime.cc:731-763 | a mask made of two is active on the days of both |
| DateRange.IsActive | src/baldr/datetime.cc:693-943 | a restriction is active exactly on its days of the week, within its times and its dates, whichever parts of the dates are given |

## Left out

- Files, tar archives, memory maps, network fetches, logging and statistics: loading a tile is a fixed map from id to tile.
- Rule names as strings: they are integers in the order of the strings; the supported years are parameters of the table.
- `std::sort`: the body here is an insertion sort standing in for it, of which only "a sorted permutation" is used; the searches for the ends of a name and of the supported years are linear scans.
- `find_rule_for_zone`, zone text parsing, leap seconds and abbreviation formatting in `src/baldr/tz_alt.cpp`.
- Nodes whose tile is missing from an extract have no edges in merging, and end nodes of edges are always valid ids.
- The shift of a negative or large number in the polyline encoder is taken modulo 2^32.
- Total sizes at or above 2^64 bytes in one cache, and the locks of the synchronised caches.
- `IncidentWatcher`: states and steps are values, each load and store is one atomic step; the change-log mode, the time-out of the constructor and failing inserts are not modelled; there is one file for a tile; a change of a file stamps a time no earlier than the change.
- `SortedLookup.GetNextDeparture`: least time is stated for lines of fixed departures only, because fixed departures come before all frequencies in the sort order, whatever their times.
- Lengths and shortcut masks in `ShortcutRecovery` are whole numbers and bit vectors, and `round(n * 0.5)` is integer arithmetic; opposing edges run between the same two nodes.
- `log10` in tile paths is a count of decimal digits; path separators are those of POSIX systems.
- Rounding of coordinates: points are whole millionths of a degree.
- In `is_conditional_active`: weekday numbers above 7 in the date library (masks above 8 for the n-th weekday of every month), a begin month and day without an end month, days that no year has such as 30 February, and local midnights that a time zone skips; local date and minute are inputs.
- `DateTime::from_cache`, the JSON and protobuf parsers, enum tables, the `Turn` lookup table and the street-name helpers: single-branch members.
- Shapes and the printed rows of the edge exporter: the model exports lists of edge numbers.
