# Bike-share rebalancing GA: a verified model of its core

This project models the optimisation core of a genetic algorithm. The algorithm plans the
rebalancing of a bike-sharing system with two kinds of vehicle:

- trucks, which load and unload usable and broken bikes;
- repairmen, who turn broken bikes back into usable ones on site.

A solution is a set of routes for each vehicle kind. The routes are compiled into schedules,
replayed against the station inventories to score the solution, improved by local search, and
bred in a population. That population is managed by biased fitness and kept diverse.

The model is split into modules that follow the program's structure.

- **Instances, Schemes, Random, Sorting**: the data model.
  - The instance holds:
    - the station table;
    - the distance, dissatisfaction and priority tables, as total functions;
    - the parameters.
  - The schedule entries of trucks and repairmen are a tagged union.
  - Evaluation records and solutions (`Individual`).
  - The random engine is an explicit stream of raw draws.
  - A key-ordered insertion sort is specified as "ordered by key and a permutation".
- **TimeHelper**: `maxRepairQByTime` and `maxLoadQByTime`, the floors of time divided by one operation's time.
- **UnsatLists**: the find-or-insert association lists of unsatisfied stations and extra time.
  - `unSatUpdate`, `unSatUpdateOverwrite` and `extraUpdate`.
- **Routes, TimeAllotment**: route normalisation and the time each station may use.
  - Route normalisation is `combineTheConsecutiveDuplicateNode`, plus the stripping of interior depots.
  - `routeAdjustment` drops low-priority stations until the budget fits.
  - `getMaxOpTime` gives each station a proportional share capped at its need, then hands out the extra time.
- **TruckAssignment, TruckScheme**: the truck schedule compiler.
  - `greedyAssignment` and the per-stop load and unload rules.
  - The backfill of `unloadUsable` and `adjustDepotLoading`.
  - `assignTruckScheme` with its second pass over freed time.
- **RepairAssignment**: the repairman schedule compiler, `assignRepairmanScheme`.
- **RepairAmendment, TruckAmendment**: the two amendment passes that spend leftover time.
  - `repairmanSchemeAmendment` and `truckSchemeAmendment`.
- **Evaluation**: `feasibilityCheckOfSolution` and `solutionEvaluation`.
  - Arrival times are stamped per vehicle, and all stops are merged by arrival time.
  - The stops are replayed against the inventories, with excess and feasibility bookkeeping.
  - Dissatisfaction is summed, then the objective is formed.
- **Individuals**: building a solution from routes.
  - The route-given constructor.
  - `buildIndividual`.
  - `greedyAssignmentForRepairman`, and `greedyAssignmentForTrucks` with `fixZeroLoading`.
- **RouteMoves, LocalSearch**: the local search.
  - The nine route operators: swap, subtour swap, relocate one node, relocate one subtour, reverse, insert one or many, delete one or many.
  - `LocalSearch::run`.
- **Similarity, Populations**: population bookkeeping, with the archives as fields of the class `Population`.
  - `getSimilarity` and `getBiasedFitness`.
  - `sizeControl` and `addIndividualToSubpopulation`.
  - `adjustmentBasedOnProportion` and `getBinaryTournament`.
  - `diversification`, `generateInitialPopulation` and `educateAndRepair`.
- **Genetics**: the driver, with the population held by the class `Genetic`.
  - `orderedCrossover` fills an offspring array with the type-0 or type-1 sweep.
  - `crossoverOX`.
  - `terminateCondition` and the counters of `Genetic::run`.

The program changes vectors in place: inventories, time vectors, schedule entries and routes. Its
helpers become methods that take the old values and return the new ones. Loops keep their loops
and are proved against specification functions. Random draws come from an explicit `Rng` stream.
The clock is a parameter. Times are `real` and quantities `int`. The depot, station 0, is handled
separately instead of carrying its `INT_MAX` stock.

## Model

| member | source | states |
|---|---|---|
| Instances.InitialUsable | Program/Individual.cpp:57-60 | the usable-stock vector has one slot per station and station s starts with its instance stock |
| Instances.InitialBroken | Program/Individual.cpp:57-60 | the broken-stock vector has one slot per station and station s starts with its instance stock |
| Random.GetRand | Program/LocalSearch.cpp:9-12 | a draw for getRand(maxNum) lies in [0, maxNum) |
| Random.GetRandBelow | Program/LocalSearch.cpp:9-12 | a raw draw already below maxNum is returned unchanged |
| Random.PickOther | Program/LocalSearch.cpp:73-76 | the value a redraw-until-different loop settles on lies in [1, m] and differs from the value it avoids |
| Random.PickOtherCovers | Program/LocalSearch.cpp:73-76 | every value in [1, m] other than the avoided one is the outcome of some draw |
| Routes.Dedup | Program/helpers/Utils.cpp:761-762 | std::unique leaves no equal neighbours, keeps the first and last entries, never lengthens and keeps exactly the same values |
| Routes.DedupIdempotent | Program/helpers/Utils.cpp:761-762 | on a sequence without equal neighbours std::unique changes nothing |
| Routes.DedupStutters | Program/helpers/Utils.cpp:761-762 | std::unique keeps the order: the input is the result with each entry repeated one or more times, in place |
| Routes.WithDepotEnds | Program/helpers/Utils.cpp:763-766 | the result starts and ends at the depot and holds exactly the input's values plus the depot |
| Routes.DropInteriorDepots | Program/helpers/Utils.cpp:767-773 | both ends are kept, no depot remains strictly inside, and every station is kept |
| Routes.CombineCollapsesAllDepotRoutes | Program/helpers/Utils.cpp:757-775 | as written, [0, 0, 0] is normalised to the one-entry route [0] |
| Routes.CombineAsWrittenShort | Program/helpers/Utils.cpp:757-775 | as written, a route ends up shorter than two entries exactly when it has three or more entries that are all depots |
| Routes.CombineRoute | Program/helpers/Utils.cpp:758-774 | the normalised route starts and ends at the depot and has at least two entries; [0, 0] is kept; a truck route has no equal neighbours; a repairman route has no interior depot; every station is kept |
| Routes.CombineTruckRouteIdempotent | Program/helpers/Utils.cpp:757-775 | normalising a normalised truck route changes nothing |
| Routes.CombineRoutes | Program/helpers/Utils.cpp:757-775 | every route of the chromosome is normalised and the number of routes is kept |
| RouteMoves.SwapTwoRandomElements | Program/LocalSearch.cpp:67-79 | a route of more than 3 entries has two distinct interior positions exchanged (same ends, same multiset); shorter routes are untouched |
| RouteMoves.SwapTwoSubtours | Program/LocalSearch.cpp:101-149 | a route of more than 4 entries has the blocks [i0, i1] and [i2, i3] trade places: same ends, same multiset, untouched before i0 and after i3 |
| RouteMoves.BlockSwapFacts | Program/LocalSearch.cpp:125-148 | the five pieces the program concatenates form a same-ends permutation of the route that keeps the outer parts |
| RouteMoves.InsertRemoveRoundTrip | Program/LocalSearch.cpp:172-183 | erasing the entry just inserted gives the route back |
| RouteMoves.RelocateOneNode | Program/LocalSearch.cpp:167-185 | a route of more than 3 entries has one interior station moved to an interior position; removing it from both routes leaves the same route |
| RouteMoves.RelocateFacts | Program/LocalSearch.cpp:171-183 | erase-then-insert is a same-ends permutation that puts the station at its new position |
| RouteMoves.RelocateOneSubtour | Program/LocalSearch.cpp:202-231 | a route of more than 4 entries has an interior block cut out and reinserted at an interior position of the rest; same ends, same multiset |
| RouteMoves.MoveBlockFacts | Program/LocalSearch.cpp:216-229 | moving a block between interior positions is a same-ends permutation |
| RouteMoves.CutPermutes | Program/LocalSearch.cpp:216-218 | the block cut out and what remains together hold the route's multiset |
| RouteMoves.InsertPermutes | Program/LocalSearch.cpp:229 | inserting a block adds exactly its multiset |
| RouteMoves.Reverse | Program/LocalSearch.cpp:260 | std::reverse mirrors every position and keeps the multiset |
| RouteMoves.ReverseOneSubtour | Program/LocalSearch.cpp:247-262 | a route of more than 3 entries has one interior block of at least two entries reversed and nothing else moved |
| RouteMoves.ReverseFacts | Program/LocalSearch.cpp:257-260 | reversing [i1, i2] is a same-ends permutation that mirrors the block and leaves the rest |
| RouteMoves.DeleteOneNode | Program/LocalSearch.cpp:357-362 | a route of more than 3 entries loses exactly one interior entry and keeps both ends; shorter routes are untouched |
| RouteMoves.Absent | Program/LocalSearch.cpp:296-300 | the stations the redraw loop can settle on are exactly the stations 1..nbClients that the route does not visit |
| RouteMoves.AbsentNonEmpty | Program/LocalSearch.cpp:290-300 | when the route does not visit nbClients stations the redraw loop has a station to settle on |
| RouteMoves.NoneAbsentAllVisited | Program/LocalSearch.cpp:284-292 | when no station is absent the route visits exactly the stations 1..nbClients |
| RouteMoves.InsertOneNode | Program/LocalSearch.cpp:281-310 | the route is unchanged or gains one station at an interior position: for a repairman a station it does not visit that has broken bikes, for a truck a station whose usable stock is off target; short routes and repairman routes visiting every station are unchanged |
| RouteMoves.InsertForRepairman | Program/LocalSearch.cpp:297-302 | the inserted station is new to the route and has broken bikes, or nothing is inserted |
| RouteMoves.InsertForTruck | Program/LocalSearch.cpp:303-308 | the inserted station is a real station whose usable stock is off target, or nothing is inserted |
| Schemes.InitialEval | Program/Individual.h:8-23 | a fresh evaluation has no excess, is feasible and has zero dissatisfaction and objective |
| Sorting.InsertBy | Program/helpers/SortHelper.h:31-37 | inserting into a key-ordered sequence keeps it ordered and adds exactly the element |
| Sorting.SortBy | Program/helpers/SortHelper.h:31-37 | the result is ordered by the key, is a permutation of the input and has its length |
| TimeAllotment.TravelRemoveAt | Program/helpers/Utils.cpp:124-136 | removing one entry changes the travel by exactly the legs the program adds back and subtracts |
| TimeAllotment.TravelRemoveInterior | Program/helpers/Utils.cpp:124-136 | removing an interior entry replaces its two legs by the direct leg between its neighbours |
| TimeAllotment.SingleOperatingTime | Program/helpers/Utils.cpp:31 | the time of one repair, or of loading and unloading one bike, is positive |
| TimeAllotment.LastIndexOf | Program/helpers/Utils.cpp:117-120 | the reverse search finds the last occurrence of the station, or reports none when no entry holds it |
| TimeAllotment.RemoveEachShrinks | Program/helpers/Utils.cpp:115-143 | the removals of routeAdjustment only ever take entries away |
| TimeAllotment.RemoveLastStation | Program/helpers/Utils.cpp:117-138 | erasing the last occurrence of a station keeps the first entry, every depot and depot ends, and takes exactly one copy of the station off the interior |
| TimeAllotment.TimeAfterRemovalExact | Program/helpers/Utils.cpp:124-136 | the leg-by-leg update keeps the time left equal to the budget minus the travel of the shortened route |
| TimeAllotment.AdjustStep | Program/helpers/Utils.cpp:115-139 | one removal keeps the loop's invariant: the time left matches the shortened route and the stations still to try are its interior stations |
| TimeAllotment.AdjustDone | Program/helpers/Utils.cpp:115-143 | once every station has been tried, only depots remain after the first entry |
| TimeAllotment.TimeAfterTravel | Program/helpers/Utils.cpp:100-101 | the time left is the budget minus the travel of the route |
| TimeAllotment.RouteAdjustment | Program/helpers/Utils.cpp:93-145 | the time left is the budget minus the travel of the returned route; nothing is removed when the route already fits; stations are tried by increasing priority and the last occurrence of each is removed until the time reaches one operation's time, or only depots remain; first entry, depot count and depot ends are kept; every removal was made while the time left was still below one operation's time |
| TimeAllotment.RemoveWhileShort | Program/helpers/Utils.cpp:115-142 | the loop keeps the route equal to the route with the last occurrence of each tried station removed and the time equal to the budget minus its travel; every removal was made while the time was below the boundary; it stops early only once the time reaches the boundary, and when it never does only depots are left after the first entry |
| TimeAllotment.UpdateTime | Program/helpers/Utils.cpp:124-136 | the time is updated by exactly the legs the removal changes |
| TimeAllotment.RequiredTime | Program/helpers/Utils.cpp:47-58 | the time a station's whole task needs is never negative when its broken stock is not |
| TimeAllotment.PriorityVector | Program/helpers/Utils.cpp:32-40 | every station visited after the first entry gets its priority at the current stock and every other slot is 0 |
| TimeAllotment.StationInfos | Program/helpers/Utils.cpp:41-65 | one fresh record per station of the route, carrying its task, required time and priority, and the sum of their priorities |
| TimeAllotment.ShareOf | Program/helpers/Utils.cpp:68 | a station's share is operatingTime times its priority over the priority sum |
| TimeAllotment.ProportionalShares | Program/helpers/Utils.cpp:66-75 | each record gets its proportional share capped at its required time, records its shortfall, and the extra time collected is non-negative |
| TimeAllotment.DistributeExtraTime | Program/helpers/Utils.cpp:78-85 | no record loses time or exceeds its required time, the extra time only shrinks, and the hand-out stops only once at most one operation's time is left or every record has its required time |
| TimeAllotment.AllotmentVector | Program/helpers/Utils.cpp:86-88 | a station without a record gets 0 and a station with one gets the allotment of one of its records |
| TimeAllotment.PermutationKeepsShares | Program/helpers/Utils.cpp:77 | sorting the records by priority keeps every record's allotment bounds |
| TimeAllotment.AllRequired | Program/helpers/Utils.cpp:64-75 | with a zero priority sum every station is allotted exactly its required time |
| TimeAllotment.Allot | Program/helpers/Utils.cpp:66-85 | every record comes back with its allotment within the bounds of its share, and every station keeps a record |
| TimeAllotment.GetMaxOpTime | Program/helpers/Utils.cpp:29-91 | the priority vector, the shortened route and the time left as above; each station of the route is allotted at most its required time and at least its capped proportional share (its required time when the priorities sum to 0); stations off the route get 0; no allotment is negative when stock, tables and time are not |
| TimeAllotment.StationPriorityNonNegative | Program/helpers/Utils.cpp:12-18 | a station's priority is never negative when the tables have no negative entry |
| TimeAllotment.PrioritiesNonNegative | Program/helpers/Utils.cpp:32-40 | the priority vector has no negative entry when the tables have none |
| TimeAllotment.AllotStations | Program/helpers/Utils.cpp:41-90 | the allotment vector bounds of GetMaxOpTime, given the priority vector and the time left |
| TimeAllotment.RoutePrioritySumNonNegative | Program/helpers/Utils.cpp:64-65 | the priority sum is non-negative when every priority is |
| TimeAllotment.ShareNonNegative | Program/helpers/Utils.cpp:68 | a non-negative time split by non-negative priorities gives non-negative shares |
| TimeAllotment.VectorBounds | Program/helpers/Utils.cpp:86-88 | what the allotted records say about each station carries over to the vector indexed by station |
| TimeHelper.Times | Program/helpers/Utils.cpp:49 | a count of repairs times a non-negative unit has the sign of the count |
| TimeHelper.TimesIsProduct | Program/helpers/Utils.cpp:49 | repeated addition is the product the program computes |
| TimeHelper.MaxRepairQByTime | Program/helpers/TimeHelper.cpp:4-6 | the floor of time over repairTime: the most repairs that fit in the time |
| TimeHelper.MaxLoadQByTime | Program/helpers/TimeHelper.cpp:8-10 | the floor of time over twice loadingTime: the most bikes that can be loaded and unloaded in the time |
| TimeHelper.MaxRepairQNonNegative | Program/helpers/TimeHelper.cpp:4-6 | no negative repair count for a non-negative time |
| TimeHelper.MaxLoadQNonNegative | Program/helpers/TimeHelper.cpp:8-10 | no negative load count for a non-negative time |
| TimeHelper.MaxRepairQMonotone | Program/helpers/TimeHelper.cpp:4-6 | more time never allows fewer repairs |
| TimeHelper.MaxLoadQMonotone | Program/helpers/TimeHelper.cpp:8-10 | more time never allows fewer loads |
| TimeHelper.LoadTimeFits | Program/helpers/TimeHelper.cpp:8-10 | moving no more bikes than the time allows takes no more than the time |
| TimeHelper.OneLoadFits | Program/helpers/TimeHelper.cpp:8-10 | the time for one bike allows at least one |
| TimeHelper.RepairTimeFits | Program/helpers/TimeHelper.cpp:4-6 | repairing no more bikes than the time allows takes no more than the time |
| TimeHelper.LoadLeavesLessThanOne | Program/helpers/TimeHelper.cpp:8-10 | after moving as many bikes as the time allows, less than one bike's time is left |
| UnsatLists.FindFirst | Program/helpers/Utils.cpp:512-513 | find_if: the position of the first record with the station's key, or the end when no record has it |
| UnsatLists.FindStation | Program/helpers/Utils.cpp:512-513 | the search loop stops exactly at FindFirst |
| UnsatLists.FindFirstUnique | Program/helpers/Utils.cpp:512-513 | any position meeting find_if's contract is the one FindFirst names |
| UnsatLists.UnSatUpdate | Program/helpers/Utils.cpp:509-520 | a zero surplus changes nothing; a known station keeps its index, accumulates the surplus and takes the new priority; an unknown station is appended; unique stations stay unique |
| UnsatLists.UnSatUpdateOverwrite | Program/helpers/Utils.cpp:733-744 | as unSatUpdate, except that a known station's surplus is replaced |
| UnsatLists.ExtraUpdate | Program/helpers/Utils.cpp:746-755 | a zero amount changes nothing; a known station accumulates the time; an unknown one is appended; unique stations stay unique |
| UnsatLists.UpdateKeepsKeysUnique | Program/helpers/Utils.cpp:509-520 | rewriting a record in place, or appending one with an absent key, keeps keys unique |
| UnsatLists.FindFirstOnly | Program/helpers/Utils.cpp:512-513 | with unique keys the record find_if finds is the only one with that key |
| UnsatLists.OverwriteKeeps | Program/helpers/Utils.cpp:733-744 | a property of every record survives unSatUpdateOverwrite when the records it writes have it |
| UnsatLists.UpdateKeeps | Program/helpers/Utils.cpp:509-520 | a property of every record survives unSatUpdate when the records it writes have it |
| UnsatLists.ExtraKeeps | Program/helpers/Utils.cpp:746-755 | a property of every record survives extraUpdate when the records it writes have it |
| TruckAssignment.MinRoomFrom | Program/helpers/Utils.cpp:272-278 | the result is the smallest room the truck has at any entry from `from` to the end of the schedule, and some entry has exactly that room |
| TruckAssignment.RaiseFrom | Program/helpers/Utils.cpp:283-287 | loading a more usable bikes at entry idx raises its loading and the truck's usable load there and at every later entry by a; earlier entries are untouched |
| TruckAssignment.RaiseKeepsPlan | Program/helpers/Utils.cpp:272-287 | raising the load by no more than the smallest room, at an entry that does not unload, keeps every entry within the truck's capacity and its loads consistent |
| TruckAssignment.RaiseTally | Program/helpers/Utils.cpp:283-287 | loading a more usable bikes at one entry raises its station's total usable loading by a and no other station's |
| TruckAssignment.RaiseShifted | Program/helpers/Utils.cpp:283-288 | taking a bikes from a source stop's station, loading them there and giving them to the station served keeps every station's stock plus its loading, except the served station's, which gains a |
| TruckAssignment.SameStopsTallies | Program/helpers/Utils.cpp:283-287 | rewriting usable loadings and truck loads, with stations, broken loadings and usable unloadings kept, leaves every station's totals of usable bikes unloaded and broken bikes loaded unchanged |
| TruckAssignment.MoveFromSource | Program/helpers/Utils.cpp:283-288 | loading a more bikes at a source stop raises its loading and every later truck load by a within capacity, keeps every stop's station, takes a bikes from the source station's stock and gives them to the station served |
| TruckAssignment.Recompute | Program/helpers/Utils.cpp:198-203 | every later entry's loads are the previous entry's loads plus its own loading minus its unloading |
| TruckAssignment.RecomputeShifts | Program/helpers/Utils.cpp:195-203 | when one entry carries d more usable bikes, recomputing shifts every later usable load by d and keeps the broken loads |
| TruckAssignment.OverwriteRecords | Program/helpers/Utils.cpp:733-744 | after unSatUpdateOverwrite with a non-zero surplus the station's record holds exactly that surplus |
| TruckAssignment.SuppLoadBroken | Program/helpers/Utils.cpp:232-246 | the station's broken bikes are loaded up to the truck's room and the time; stock, time and truck load change by exactly that amount; the load stops only at the stock, the room or the time; the part left for lack of time is recorded, and nothing is recorded when none is left |
| TruckAssignment.LoadBroken | Program/helpers/Utils.cpp:314-331 | nothing changes when the station's time does not cover one bike; otherwise as suppLoadBroken |
| TruckAssignment.LoadUsable | Program/helpers/Utils.cpp:347-361 | the usable surplus above the target is loaded up to the truck's room and the time; stock, time and truck load change by exactly that amount; the part left for lack of time is recorded against the entry being built |
| TruckAssignment.AssignLoadingQuantities | Program/helpers/Utils.cpp:333-345 | at a station above its target broken bikes are loaded, then usable ones; the truck stays within capacity and stock and time change by exactly what was loaded |
| TruckAssignment.AdjustDepotLoading | Program/helpers/Utils.cpp:147-205 | the last depot stop's net usable loading grows by ep, at most the demand, and every later load with it; the schedule stays within capacity; ep stops short of the demand only when the truck has no room left or the station's time is spent |
| TruckAssignment.AddShortfall | Program/helpers/Utils.cpp:509-520 | recording a non-negative shortfall keeps the list well formed and, when positive, the station is listed |
| TruckAssignment.DepotAmount | Program/helpers/Utils.cpp:167-189 | ep is bounded by the demand and the smallest room, the time charged pays for the bikes the depot now loads, the shortfall is what the time leaves, and ep stops short only at the demand, the room or the time |
| TruckAssignment.TopUpDepot | Program/helpers/Utils.cpp:185-203 | rewriting the depot stop's usable loading raises its load and every later load by ep and keeps the schedule within capacity |
| TruckAssignment.DepotRaiseKeepsPlan | Program/helpers/Utils.cpp:185-203 | raising the net usable loading of a depot stop and every later load by no more than the smallest room keeps the schedule sound |
| TruckAssignment.OverwriteShortfall | Program/helpers/Utils.cpp:733-744 | overwriting a non-negative shortfall keeps the list well formed and a positive one is recorded |
| TruckAssignment.AddExtra | Program/helpers/Utils.cpp:746-755 | booking a non-negative unloading time keeps the list well formed |
| TruckAssignment.BackfillStep | Program/helpers/Utils.cpp:270-297 | the most urgent stop that left usable surplus loads between 1 and the missing amount more, the truck carries them to the station, stops keep their stations, capacity holds, and the stock moves from the sources to the station; every station's usable stock plus the usable bikes the schedule loads there is unchanged, except at the station served, which gains exactly the bikes it received |
| TruckAssignment.Backfill | Program/helpers/Utils.cpp:260-308 | the station gets between what the truck brought and its demand; earlier stops and then the last depot load the difference within capacity, moving stock from the sources to the station; every station's usable stock plus the usable bikes the schedule loads there is unchanged, except at the station served, which gains exactly the bikes it received |
| TruckAssignment.TopUpAtDepot | Program/helpers/Utils.cpp:300-308 | what is still missing after the loop is loaded at the last depot visit within the same bounds; every station's usable stock plus the usable bikes the schedule loads there is unchanged, except at the station served, which gains exactly the bikes it received |
| TruckAssignment.BackfillLoop | Program/helpers/Utils.cpp:267-298 | the loop over the recorded surplus keeps the backfill's bounds and conservation; every station's usable stock plus the usable bikes the schedule loads there is unchanged, except at the station served, which gains exactly the bikes it received |
| TruckAssignment.UnloadUsable | Program/helpers/Utils.cpp:248-312 | the station gets at most its deficit and its free room; either it gets all of that or the truck leaves empty; the truck's load matches the schedule; stock only moves from earlier stops to the station and the station's time never grows; every station's usable stock plus the usable bikes the schedule loads there is unchanged, except at the station served, which gains exactly what was unloaded |
| TruckAssignment.AssignUnloadingQuantities | Program/helpers/Utils.cpp:207-230 | at a station at or below its target the truck unloads usable bikes and loads broken ones; the truck stays within capacity, the station stays at or below target and within its capacity, and the stock stays sound; every station's usable stock plus the usable bikes the schedule loads there is unchanged, except at the station served, which gains exactly what was unloaded |
| TruckAssignment.MakeRoomAndUnload | Program/helpers/Utils.cpp:211-222 | loading broken bikes when the station lacks room and then unloading usable ones keeps the same bounds; every station's usable stock plus the usable bikes the schedule loads there is unchanged, except at the station served, which gains exactly what was unloaded |
| TruckAssignment.DepotStop | Program/helpers/Utils.cpp:491-502 | at a depot visit the truck unloads everything it carries and leaves empty; the entry is appended |
| TruckAssignment.UnloadStop | Program/helpers/Utils.cpp:479-485 | a station at or below its target gets an entry that loads no usable bikes and unloads no broken ones, and stays at or below target |
| TruckAssignment.LoadEntry | Program/helpers/Utils.cpp:486-502 | a station above its target gets an entry whose usable loading is what the station lost, never below target, and whose broken loading is what the station's broken stock lost |
| TruckAssignment.LoadStop | Program/helpers/Utils.cpp:486-491 | a station above its target gets an entry that unloads nothing and stays at or above target |
| TruckAssignment.LedgerStep | Program/helpers/Utils.cpp:469-507 | appending a stop whose entry accounts for what it moved keeps every station's stock equal to its starting stock less the usable and broken bikes the schedule loads there, plus the usable bikes it unloads there |
| TruckAssignment.GreedyStop | Program/helpers/Utils.cpp:476-503 | a depot, a station at or below its target and a station above it are each handled so that the pass's invariant holds one stop further: the schedule, the stock bounds, the untouched stations, the lists and the stock ledger |
| TruckAssignment.GreedyStops | Program/helpers/Utils.cpp:475-504 | after every stop of the route the pass's invariant holds |
| TruckAssignment.GreedyAssignment | Program/helpers/Utils.cpp:469-507 | one entry per stop of the route, in order; every entry within the truck's capacity with consistent loads; the stock stays sound; no station's time or broken stock grows; stations off the route are untouched; every station's usable stock ends as its starting stock less the usable bikes the schedule loads there plus those it unloads there, and its broken stock as its starting stock less the broken bikes loaded there |
| TruckScheme.Total | Program/helpers/Utils.cpp:387-393 | the total of non-negative times is non-negative |
| TruckScheme.TotalUpdate | Program/helpers/Utils.cpp:389-393 | changing one station's time changes the total by the difference |
| TruckScheme.Request | Program/helpers/Utils.cpp:413 | a station short of bikes asks for the time to load and unload its whole surplus, at least 2 units when it has one |
| TruckScheme.Requested | Program/helpers/Utils.cpp:411-417 | what a well-formed list asks for in total is non-negative |
| TruckScheme.RequestedGrows | Program/helpers/Utils.cpp:411-417 | every further record of a well-formed list asks for strictly more time |
| TruckScheme.ReclaimExtra | Program/helpers/Utils.cpp:380-393 | each unloading station's unused time, up to its allotment, moves into the pool: the total is conserved, a non-negative allotment stays within [0, old], stations without a record keep theirs, and the pool is non-negative |
| TruckScheme.GrantExtra | Program/helpers/Utils.cpp:409-417 | the pool is handed out in list order: no station loses time, stations without a record keep theirs, the total is conserved; when the pool covers every request each is granted in full, otherwise less than one unit is left |
| TruckScheme.Grant | Program/helpers/Utils.cpp:413 | the int-truncated grant is at most the request and the pool, equals the request when the pool covers it, and otherwise leaves less than one unit |
| TruckScheme.GrantOne | Program/helpers/Utils.cpp:412-416 | one grant moves exactly its amount from the pool to the station |
| TruckScheme.GrantStep | Program/helpers/Utils.cpp:411-417 | after each grant the pool is the initial pool minus the requests served, or less than one unit is left |
| TruckScheme.MergeRecords | Program/helpers/Utils.cpp:399-405 | merging with unSatUpdate keeps each record's place and station and lists every station of either list |
| TruckScheme.StationsKept | Program/helpers/Utils.cpp:399-405 | a list that keeps another's stations place by place names all of them |
| TruckScheme.GreedyFrom | Program/helpers/Utils.cpp:367-378 | a greedy pass from an empty truck visits the route's stations within capacity, keeps the stock sound and touches only the route's stations, and no station's time grows; every station's usable stock ends as its starting stock less the usable bikes the schedule loads there plus those it unloads there, and its broken stock as its starting stock less the broken bikes loaded there |
| TruckScheme.ReassignExtra | Program/helpers/Utils.cpp:380-427 | handing out the freed time and running the greedy pass again keeps all of GreedyFrom's guarantees |
| TruckScheme.AssignTruckScheme | Program/helpers/Utils.cpp:363-430 | the adjusted route starts at the depot, keeps its depots and depot ends and only loses entries; the schedule has one entry per stop of it, within the truck's capacity; the stock stays sound, broken stock only falls, and stations off the route are untouched; every station's usable stock ends as its starting stock less the usable bikes the schedule loads there plus those it unloads there, and its broken stock as its starting stock less the broken bikes loaded there |
| RepairAssignment.RepairTime | Program/helpers/Utils.cpp:448 | a non-negative number of repairs takes non-negative time |
| RepairAssignment.RepairQuantity | Program/helpers/Utils.cpp:445-447 | the repair count is the smallest of the shortfall below target, what the time allows and the broken stock; it fits in the time and never lifts the station above its target |
| RepairAssignment.StepReplayed | Program/helpers/Utils.cpp:440-455 | one stop keeps the stock and times equal to the inputs with the schedule's repairs applied, and keeps the repairs within bounds |
| RepairAssignment.RunReplayed | Program/helpers/Utils.cpp:440-455 | after the pass over a route prefix the stock and times are the inputs with the schedule's repairs applied |
| RepairAssignment.RunPlanned | Program/helpers/Utils.cpp:440-455 | every entry of the pass is the stop the program computes from the stock left by the entries before it |
| RepairAssignment.RunEntries | Program/helpers/Utils.cpp:438-455 | entry 0 is the default depot entry, entry k is the stop at route[k], the depot repairs nothing and no repair count is negative |
| RepairAssignment.RepairPass | Program/helpers/Utils.cpp:437-455 | one entry per stop; the returned stock is the input stock with each station's repairs moved from broken to usable; every entry is planned and no repair is negative |
| RepairAssignment.PlannedAppend | Program/helpers/Utils.cpp:441-454 | appending the stop computed from the replayed state keeps the schedule planned |
| RepairAssignment.RepairStepKeeps | Program/helpers/Utils.cpp:441-454 | one stop applies its repairs to the stock and time of its own station and keeps the repairs within bounds |
| RepairAssignment.AssignRepairmanScheme | Program/helpers/Utils.cpp:432-467 | the adjusted route keeps its first entry, depots and depot ends and only loses entries; one entry per stop with no negative repair and none at the depot; every station keeps its total stock, usable stock only rises and never past the target, and the inventory stays within bounds |
| RepairAmendment.RepairStations | Program/helpers/Utils.cpp:527-528 | the stations of a schedule are its entries' stations, in order |
| RepairAmendment.InRoute | Program/helpers/Utils.cpp:531-535 | the first-round candidates are exactly the stations of the schedule worth one more repair, each with its gain |
| RepairAmendment.RepairableMembers | Program/helpers/Utils.cpp:576-587 | the second-round candidates are exactly the stations 1..n outside the visited set worth one more repair, each with its gain |
| RepairAmendment.RepairableStep | Program/helpers/Utils.cpp:576-587 | the second-round candidate list grows by station n exactly when n is unvisited and worth a repair |
| RepairAmendment.BestRepair | Program/helpers/Utils.cpp:546-555 | the repair count lies in 0..maxRepair and gives the least dissatisfaction over that range, the smallest count that does (strict-less scan) |
| RepairAmendment.CheapestInsertion | Program/helpers/Utils.cpp:593-607 | the insertion point is between two entries, its cost is no more than any other point's and strictly less than every earlier point's |
| RepairAmendment.TravelInsert | Program/helpers/Utils.cpp:599-602 | inserting a station lengthens the tour by exactly the insertion cost |
| RepairAmendment.RepairsUpdate | Program/helpers/Utils.cpp:556 | changing one entry's repairs changes its station's repairs and the total by the difference |
| RepairAmendment.InsertEntry | Program/helpers/Utils.cpp:614 | the inserted entry sits at its index, entries before it are kept and those after it move up by one |
| RepairAmendment.RepairsInsert | Program/helpers/Utils.cpp:614 | inserting an entry adds its repairs to its station and to the total |
| RepairAmendment.StationsInsert | Program/helpers/Utils.cpp:614 | inserting an entry inserts its station into the tour at the same index |
| RepairAmendment.RepairCount | Program/helpers/Utils.cpp:545-555 | the repairs are non-negative, at most the broken stock, fit in the time left and do not raise the station's dissatisfaction |
| RepairAmendment.RepairMore | Program/helpers/Utils.cpp:545-559 | the entry's repairs grow by the count, the stations stay, the stock moves from broken to usable, the schedule time grows by the repair time and the time left shrinks by it without going negative |
| RepairAmendment.UpdateFacts | Program/helpers/Utils.cpp:556-559 | changing an entry's repairs keeps the stations and shifts the schedule time by the repair time of the difference |
| RepairAmendment.InsertStation | Program/helpers/Utils.cpp:593-636 | either nothing changes, or the station is inserted at a place between two entries and repaired at within the stock and the time; the ends stay and the time left stays the budget minus the schedule time |
| RepairAmendment.InsertAndRepair | Program/helpers/Utils.cpp:609-635 | the station is inserted at the index, repaired within the stock, the schedule time grows by the insertion cost plus the repair time, and the time left stays non-negative |
| RepairAmendment.InsertFacts | Program/helpers/Utils.cpp:611-615 | inserting an empty entry inserts its station, keeps station ids, repairs nothing and adds the insertion cost to the time |
| RepairAmendment.InsertTime | Program/helpers/Utils.cpp:615 | inserting an entry without repairs adds exactly the insertion cost to the schedule time |
| RepairAmendment.ScheduleTimeExtend | Program/helpers/Utils.cpp:527-530 | one more entry adds one leg at 1.68 times its distance and that entry's repair time |
| RepairAmendment.ScanSchedule | Program/helpers/Utils.cpp:525-537 | the first pass returns the schedule's time and the in-route candidates in schedule order |
| RepairAmendment.ScanRepairable | Program/helpers/Utils.cpp:576-587 | the second pass returns exactly the unvisited stations worth a repair, in station order |
| RepairAmendment.StationsInsertStep | Program/helpers/Utils.cpp:614 | inserting a station that is neither the depot nor visited keeps what the schedule started from |
| RepairAmendment.StockStep | Program/helpers/Utils.cpp:633-634 | one bounded, non-worsening round of repairs keeps the stock following the repairs |
| RepairAmendment.FindFrom | Program/helpers/Utils.cpp:542-543 | the result is the first index from the start position holding the station, or the length when there is none |
| RepairAmendment.RepairRound | Program/helpers/Utils.cpp:539-563 | the first round keeps the schedule's stations, turns only broken bikes into usable ones at non-depot stations without raising any station's dissatisfaction, keeps the time left equal to the budget minus the schedule time and non-negative, and changes nothing when no time is left |
| RepairAmendment.InsertRound | Program/helpers/Utils.cpp:590-638 | the second round only adds unvisited non-depot stations, keeps both ends, repairs as the first round does, and changes nothing when no more than one repair's time is left |
| RepairAmendment.InsertNext | Program/helpers/Utils.cpp:591-637 | one candidate of the second round keeps what the round promises |
| RepairAmendment.RepairmanSchemeAmendment | Program/helpers/Utils.cpp:522-639 | the amended schedule keeps its start, its end and every original entry's station, adds only unvisited stations, moves only broken bikes to usable without raising any station's dissatisfaction, stays within the time budget when it started within it, and is unchanged when the budget was already spent |
| RepairAmendment.AmendmentKeepsInventory | Program/Individual.cpp:75-78 | after the amendment every station's stock stays within bounds, its total stays the same and its usable bikes never fall |
| TruckAmendment.OpTime | Program/helpers/Utils.cpp:651-659 | a non-negative number of loading operations takes non-negative time |
| TruckAmendment.CompiledIsCarried | Program/helpers/Utils.cpp:363-430 | a schedule built by the truck scheme compiler is consistent (load leaving is load arriving plus loaded minus unloaded) and within capacity |
| TruckAmendment.Move | Program/helpers/Utils.cpp:695-698 | moving bikes changes every entry as the single-entry move rule says and keeps the length |
| TruckAmendment.MoveBikes | Program/helpers/Utils.cpp:695-698 | loading at one entry, unloading at a later one and carrying in between yields the move on the schedule |
| TruckAmendment.MoveCarried | Program/helpers/Utils.cpp:689-698 | a move that fits the room of every entry it passes keeps the schedule consistent and within capacity |
| TruckAmendment.MoveTime | Program/helpers/Utils.cpp:700 | a move keeps the stations and adds two operations per bike to the schedule's time |
| TruckAmendment.MoveLoads | Program/helpers/Utils.cpp:695-696 | a move adds the bikes to the loads of the loading entry's station, usable or broken, and to no other station's |
| TruckAmendment.MoveRooms | Program/helpers/Utils.cpp:689-698 | a move no larger than the smallest room over a stretch keeps the schedule carried and leaves that much less room there |
| TruckAmendment.FitLoad | Program/helpers/Utils.cpp:691-693 | the bikes moved are no more than the bound and fit in the time left; they equal the bound unless less than one more pair of operations' time would be left |
| TruckAmendment.ShippedStep | Program/helpers/Utils.cpp:694-700 | one more move from the station's entry keeps the bookkeeping: stations, loads shifted at that station only, stock of that station only, and time plus time left |
| TruckAmendment.ProvideUsable | Program/helpers/Utils.cpp:673-701 | handing on the surplus changes only the station's usable stock and loads, keeps time plus time left, never lowers the station below its target nor raises it, and keeps a consistent schedule within capacity |
| TruckAmendment.FirstDepot | Program/helpers/Utils.cpp:707-713 | the result is the first depot entry at or after the start, or the start itself when no depot follows |
| TruckAmendment.MinRoom | Program/helpers/Utils.cpp:714-720 | the result is the smallest room over the start entry and the entries up to the depot, and is attained there |
| TruckAmendment.ShipCarried | Program/helpers/Utils.cpp:721-726 | shipping no more broken bikes than the smallest room keeps the schedule consistent and within capacity |
| TruckAmendment.ShipBroken | Program/helpers/Utils.cpp:704-728 | the broken bikes go from the station's entry to the first depot after it; only the station's broken stock and loads change; the amount is the broken stock, the room or what the time allows, and the schedule stays consistent and within capacity |
| TruckAmendment.PendingUpTo | Program/helpers/Utils.cpp:655-667 | every pending entry is an entry after the first whose station is off balance |
| TruckAmendment.PendingOrdered | Program/helpers/Utils.cpp:655-667 | the pending entries are in schedule order |
| TruckAmendment.PendingComplete | Program/helpers/Utils.cpp:660-666 | every off-balance entry after the first is pending |
| TruckAmendment.TruckTimeExtend | Program/helpers/Utils.cpp:656-659 | one more entry adds one leg and that entry's operations to the schedule time |
| TruckAmendment.ScanTruckSchedule | Program/helpers/Utils.cpp:651-667 | the first pass returns the schedule's time and the pending entries in schedule order |
| TruckAmendment.StockLoadedUsable | Program/helpers/Utils.cpp:673-701 | handing on usable bikes keeps the stock accounting of the amendment |
| TruckAmendment.StockLoadedBroken | Program/helpers/Utils.cpp:704-728 | shipping broken bikes keeps the stock accounting of the amendment |
| TruckAmendment.AmendStation | Program/helpers/Utils.cpp:672-729 | one pending station keeps the stock accounting: stations unchanged, every bike taken from a station is loaded there, no station drops below its target or below zero broken, the depot and unvisited stations are untouched; time plus time left is unchanged |
| TruckAmendment.AmendTrucks | Program/helpers/Utils.cpp:671-730 | the main loop keeps the stock accounting and time plus time left, keeps the time left non-negative, and does nothing without time for one more bike |
| TruckAmendment.TruckSchemeAmendment | Program/helpers/Utils.cpp:648-731 | the amended schedule visits the same stations, keeps the stock accounting, stays within the budget when it started within it, and is unchanged without time for one more bike |
| Evaluation.ClockSplits | Program/Individual.cpp:377-379 | a vehicle's clock at an entry is its driving time plus its working time so far |
| Evaluation.ArrivalsOrdered | Program/Individual.cpp:377-379 | with no negative leg and no negative work a vehicle reaches its entries in order |
| Evaluation.DriveIsTravel | Program/Individual.cpp:383 | the driving time of a schedule from the depot is the travel time of its stations |
| Evaluation.StampedTruck | Program/Individual.cpp:358-387 | stamping a truck schedule keeps its length |
| Evaluation.StampedTruckKeeps | Program/Individual.cpp:359-378 | stamping changes nothing but the arrival times, and the first entry is reached at 0 |
| Evaluation.LegEmissionNonNegative | Program/Individual.cpp:381-382 | a leg with no negative load and no negative distance emits nothing negative |
| Evaluation.EmissionNonNegative | Program/Individual.cpp:381-382 | a consistent truck schedule over non-negative distances emits nothing negative |
| Evaluation.StampTruck | Program/Individual.cpp:358-392 | the loop stamps the schedule and sums its legs, operations and emission as the timing functions say |
| Evaluation.TruckStep | Program/Individual.cpp:371-387 | entry j is stamped with the clock before it plus one leg, and adds that leg, its operations and its leg emission to the totals |
| Evaluation.TruckClockIsTruckTime | Program/Individual.cpp:358-387 | for a schedule from the depot that unloads nothing there, the evaluator's clock ends at exactly the time the truck amendment budgets |
| Evaluation.BusyIsOpTime | Program/Individual.cpp:364-384 | a truck's working time is the loading time of every operation so far |
| Evaluation.StampedRepair | Program/Individual.cpp:394-412 | stamping a repairman schedule keeps its length |
| Evaluation.StampedRepairKeeps | Program/Individual.cpp:396-404 | stamping changes nothing but the arrival times, and the first entry is reached at 0 |
| Evaluation.StampRepair | Program/Individual.cpp:394-416 | the loop stamps the schedule and sums its legs and repair times as the timing functions say |
| Evaluation.RepairStep | Program/Individual.cpp:402-412 | entry j is stamped with the clock before it plus one leg at 1.68 times its distance, and adds that leg and its repair time to the totals |
| Evaluation.StampedTruckOrdered | Program/Individual.cpp:359-379 | along a consistent truck schedule over non-negative distances the arrival times never decrease |
| Evaluation.StampedRepairOrdered | Program/Individual.cpp:395-406 | along a repairman schedule with no negative repairs over non-negative distances the arrival times never decrease |
| Evaluation.TruckStops | Program/Individual.cpp:380 | the replayed stops of a truck are its entries after the first, in order |
| Evaluation.RepairStops | Program/Individual.cpp:410 | the replayed stops of a repairman are its entries after the first, in order |
| Evaluation.TruckFleetGrows | Program/Individual.cpp:358-392 | one more truck appends its stops to the fleet's and adds its tour to the totals |
| Evaluation.RepairFleetGrows | Program/Individual.cpp:394-416 | one more repairman appends its stops to the fleet's and adds its tour to the totals |
| Evaluation.StampTrucks | Program/Individual.cpp:356-392 | every truck schedule is stamped, the stops are the fleet's truck stops and the totals the fleet's |
| Evaluation.StampRepairs | Program/Individual.cpp:394-416 | every repairman schedule is stamped, the stops are the fleet's repair stops and the totals the fleet's |
| Evaluation.Shortfall | Program/Individual.cpp:444-450 | the excess a stop adds is non-negative and positive exactly when the station is out of bounds |
| Evaluation.Start | Program/Individual.cpp:345-352 | the replay starts from every station's initial stock, feasible and with no excess |
| Evaluation.ReplayStop | Program/Individual.cpp:431-452 | one stop moves the station's stock and charges its excess as the replay step says |
| Evaluation.ReplayEvents | Program/Individual.cpp:347-352 | the loop over the stops ends in the state the replay function gives from the initial stock |
| Evaluation.ExcessGrows | Program/Individual.cpp:444-451 | the capacity excess never falls, and the replay stays feasible exactly when the excess does not grow |
| Evaluation.FeasibleShrinks | Program/Individual.cpp:446 | a replay that ends feasible was feasible after every prefix |
| Evaluation.ViolationSticks | Program/Individual.cpp:444-446 | a stop that takes its station out of bounds makes the solution infeasible for good |
| Evaluation.NoViolationFeasible | Program/Individual.cpp:444-446 | a replay in which no stop violates a bound ends feasible |
| Evaluation.FeasibleIffNoViolation | Program/Individual.cpp:444-452 | the replay ends feasible exactly when no stop took its station out of bounds |
| Evaluation.ReplayStock | Program/Individual.cpp:434-441 | the final stock of every station is its initial stock plus what its stops moved |
| Evaluation.SumByPermutation | Program/Individual.cpp:420-421 | sums over stops do not depend on their order |
| Evaluation.StockIgnoresOrder | Program/Individual.cpp:420-421 | any two orders of the same stops end with the same stock, so the tie order of the sort does not change the stock |
| Evaluation.FeasibleEndsInBounds | Program/Individual.cpp:444-452 | a feasible replay from in-bounds stock ends with every station in bounds |
| Evaluation.DissatList | Program/Individual.cpp:454-462 | the list holds no more entries than stations |
| Evaluation.DissatListFull | Program/Individual.cpp:455-461 | with every station in bounds the list holds each station's dissatisfaction in station order |
| Evaluation.CollectDissat | Program/Individual.cpp:454-462 | the loop collects the dissatisfaction list and its sum |
| Evaluation.Merged | Program/Individual.cpp:419-421 | the merged stops are sorted by arrival time and are a permutation of all vehicles' stops |
| Evaluation.StampedPlansOk | Program/Individual.cpp:391-415 | the stamped schedules name the same stations as the schedules |
| Evaluation.FeasibilityCheck | Program/Individual.cpp:337-463 | every schedule is stamped; the evaluation holds the fleet's totals and the replay's verdict, excess and dissatisfaction, and keeps its other fields |
| Evaluation.CheckedVerdict | Program/Individual.cpp:337-463 | the excess is non-negative; the solution is feasible exactly when there is no excess and exactly when no stop took its station out of bounds; an infeasible one is charged no dissatisfaction and a feasible one from in-bounds stock lists every station's |
| Evaluation.SolutionEvaluation | Program/Individual.cpp:465-471 | only the objective changes |
| Evaluation.PenaltyChargesExcess | Program/Individual.cpp:466-470 | the objective of a solution without excess does not depend on the penalty, and with a positive penalty more excess costs strictly more |
| Individuals.StripInteriorDepots | Program/Individual.cpp:42-46 | every repairman route longer than two loses its interior depots and no longer has any; shorter routes are kept |
| Individuals.Inner | Program/Individual.cpp:318 | the entries strictly between the first and the last, none for fewer than two |
| Individuals.RepairingSub | Program/Individual.cpp:318-324 | the stations kept by the repair filter are a sub-multiset of the schedule's, and no more of them |
| Individuals.RepairingDrops | Program/Individual.cpp:319-320 | an entry that repairs nothing is dropped, so the filtered route is shorter |
| Individuals.RepairingKeepsAll | Program/Individual.cpp:321-322 | when every entry repairs something the filter keeps every station |
| Individuals.RepairRouteSame | Program/Individual.cpp:316-325 | the rebuilt route equals the schedule's route exactly when no interior stop is idle |
| Individuals.RepairRouteShape | Program/Individual.cpp:317-325 | when interior depot entries repair nothing the rebuilt route starts and ends at the depot and visits it nowhere else |
| Individuals.RepairRouteSub | Program/Individual.cpp:317-325 | the rebuilt route draws its stations from the schedule |
| Individuals.RepairRouteFacts | Program/Individual.cpp:316-325 | the rebuilt route equals the schedule's route exactly when no stop is idle, is depot-ended without interior depots, and draws its stations from the schedule |
| Individuals.FilterRepairStops | Program/Individual.cpp:316-325 | the loop builds the filtered route and sets the flag exactly when an interior stop repaired nothing |
| Individuals.RepairmanRoute | Program/Individual.cpp:314-333 | the schedule is recompiled exactly when the first one had an idle stop; otherwise route and schedule are the first compilation's; the new route is depot-ended, drawn from the old one and is the schedule's; the stock stays within bounds and every station keeps its number of bikes |
| Individuals.CompileRepairman | Program/helpers/Utils.cpp:432-467 | the compiled schedule runs along the adjusted route, which is depot-ended and drawn from the route; depot entries repair nothing; stock stays within bounds and every station keeps its bikes |
| Individuals.FilterRepairFirst | Program/Individual.cpp:316-325 | the first compilation is what the filter needs: the rebuilt route is its own exactly when no stop is idle, depot-ended and drawn from the adjusted route |
| Individuals.GreedyAssignmentForRepairman | Program/Individual.cpp:308-335 | every repairman gets a depot-ended route drawn from its original and a schedule along it; the stock stays within bounds and every station keeps its number of bikes |
| Individuals.MovingSub | Program/Individual.cpp:295-300 | the stations kept by the truck filter are a sub-multiset of the schedule's, and no more of them |
| Individuals.MovingDrops | Program/Individual.cpp:296-297 | a stop that moves nothing is dropped, so the filtered route is shorter |
| Individuals.MovingKeepsAll | Program/Individual.cpp:296-299 | when every stop moves something the filter keeps every station |
| Individuals.MovingRouteSame | Program/Individual.cpp:287-301 | the rebuilt truck route equals the schedule's route exactly when no interior stop moves nothing |
| Individuals.MovingRouteFacts | Program/Individual.cpp:294-301 | the rebuilt truck route equals the schedule's exactly when no stop is idle, starts and ends at the depot and draws its stations from the schedule |
| Individuals.FindZeroStop | Program/Individual.cpp:287-292 | the search finds a stop exactly when an interior stop moves no bike |
| Individuals.FilterTruckStops | Program/Individual.cpp:294-301 | the loop builds the route without the stops that move nothing |
| Individuals.FixZeroLoading | Program/Individual.cpp:283-306 | the fix happens exactly when an interior stop moves nothing; otherwise route, stock and schedule are unchanged; the new route is drawn from the filtered one, depot-ended, and the schedule runs along it within capacity; the stock stays valid |
| Individuals.GreedyAssignmentForTrucks | Program/Individual.cpp:271-282 | every truck gets a depot-ended route drawn from its original and a consistent schedule within capacity along it; the stock stays valid |
| Individuals.CollectRepairStations | Program/Individual.cpp:65-70 | the set holds exactly the stations some repairman schedule visits |
| Individuals.AmendTruckPlans | Program/Individual.cpp:72-74 | every truck schedule keeps its stations, stays consistent and within capacity, and stays within the budget when it started within it |
| Individuals.AmendRepairPlans | Program/Individual.cpp:76-79 | every repairman schedule keeps its ends and stations, adds only stations no repairman visited, and stays within the budget when it started within it |
| Individuals.ForceDepotEnds | Program/Individual.cpp:81-90 | every route gets a depot in front and after when it lacks one, and depot-ended routes are unchanged |
| Individuals.CombinedIds | Program/Individual.cpp:55-56 | normalising a route keeps station ids |
| Individuals.DrawnFrom | Program/Individual.cpp:55-56 | a route drawn from the normalised route visits no station the original lacks |
| Individuals.Normalise | Program/Individual.cpp:55-56 | every route of the chromosome is normalised and is then depot-ended with station ids |
| Individuals.CompileChromosomes | Program/Individual.cpp:55-63 | every route of both chromosomes is replaced by a depot-ended route drawn from it, and every schedule runs along its route |
| Individuals.StampKeepsStations | Program/Individual.cpp:358-416 | stamping arrival times keeps the stations of a schedule |
| Individuals.BuildIndividual | Program/Individual.cpp:53-93 | every route is depot-ended and drawn from its chromosome route; truck schedules run along the truck routes and repairman schedules visit at least their routes; schedules are the amended ones stamped; the evaluation is the check's outcome followed by the objective |
| Individuals.AmendSchedules | Program/Individual.cpp:65-79 | truck schedules keep their stations and repairman schedules keep at least theirs |
| Individuals.CheckedEvaluated | Program/Individual.cpp:92-93 | after the check and the evaluation the objective is the formula's, the excess is non-negative and zero exactly when feasible, and dissatisfaction is charged only when feasible, for every station |
| Individuals.ObjValKeepsOthers | Program/Individual.cpp:465-471 | the objective does not depend on the previously recorded objective |
| Individuals.StrippedIds | Program/Individual.cpp:42-46 | stripping interior depots keeps station ids |
| Individuals.IndividualFromRoutes | Program/Individual.cpp:38-51 | every route of the built solution is depot-ended and drawn from the given route; truck schedules run along the truck routes; the chromosomes are well formed and the evaluation is consistent |
| LocalSearch.Draw | Program/LocalSearch.cpp:9-12 | a draw takes the engine's next raw number and advances the engine by one |
| LocalSearch.ExtendsTrans | Program/LocalSearch.cpp:335-337 | extending a route twice extends it: repeated insertions keep the ends and only add insertable stations |
| LocalSearch.ShrinksTrans | Program/LocalSearch.cpp:386-388 | shrinking a route twice shrinks it: repeated deletions keep the ends and never go below three entries |
| LocalSearch.IdsByMembership | Program/LocalSearch.cpp:280-311 | a route that only gains its own stations or ids 1..nbClients stays a route of station ids |
| LocalSearch.SwapTwoRandomElementsAll | Program/LocalSearch.cpp:66-80 | every route is the swap of two of its interior entries for some draws, a permutation that keeps both ends |
| LocalSearch.Cuts | Program/LocalSearch.cpp:100-151 | the four cut points are ordered, the middle two distinct, all within the interior |
| LocalSearch.CutsCover | Program/LocalSearch.cpp:100-151 | every admissible choice of the four cut points is produced by some draws |
| LocalSearch.SwapTwoSubtoursAll | Program/LocalSearch.cpp:100-151 | every route of more than four entries is the exchange of two interior subtours for some cut points, a permutation that keeps both ends |
| LocalSearch.RelocateOneNodeAll | Program/LocalSearch.cpp:166-186 | every route is one interior entry moved to another interior position for some draws, a permutation that keeps both ends |
| LocalSearch.RelocateInRoute | Program/LocalSearch.cpp:166-186 | one route's relocation is the move for some draws and a permutation that keeps both ends |
| LocalSearch.RelocateOneSubtourAll | Program/LocalSearch.cpp:201-232 | every route is one interior subtour moved elsewhere for some draws, a permutation that keeps both ends |
| LocalSearch.ReverseOneSubtourAll | Program/LocalSearch.cpp:246-263 | every route is the reversal of one interior subtour for some draws, a permutation that keeps both ends |
| LocalSearch.InsertStep | Program/LocalSearch.cpp:280-311 | for any draws, inserting one station extends the route by at most one insertable station and keeps station ids |
| LocalSearch.InsertedAt | Program/LocalSearch.cpp:300-307 | inserting an insertable station at an interior position keeps the ends and the stations and only adds that station |
| LocalSearch.InsertOneNodeAll | Program/LocalSearch.cpp:280-311 | every route gains at most one insertable station at an interior position and keeps its ends and station ids |
| LocalSearch.InsertMultipleNodes | Program/LocalSearch.cpp:328-340 | every route keeps its ends and stations, gains only insertable stations and keeps station ids |
| LocalSearch.DeleteStep | Program/LocalSearch.cpp:356-363 | for any draw, a route of more than three entries loses one interior entry and shorter ones are unchanged |
| LocalSearch.DeleteOneNodeAll | Program/LocalSearch.cpp:356-363 | every route of more than three entries loses exactly one interior entry and keeps its ends; shorter ones are unchanged |
| LocalSearch.DeleteInRoute | Program/LocalSearch.cpp:358-361 | one route's deletion removes one interior entry when it has more than three |
| LocalSearch.DeleteMultipleNodes | Program/LocalSearch.cpp:380-391 | every route keeps its ends, loses only interior entries, keeps at least three entries when it had more, and is unchanged with three or fewer |
| LocalSearch.MovedOk | Program/LocalSearch.cpp:82-403 | every move keeps a route of at least two station ids one |
| LocalSearch.MovedAllOk | Program/LocalSearch.cpp:82-403 | every move keeps a chromosome of routes of at least two station ids one |
| LocalSearch.MoveRoutes | Program/LocalSearch.cpp:82-403 | move k's operator changes every route as that operator promises and keeps routes of at least two station ids |
| LocalSearch.Move | Program/LocalSearch.cpp:82-403 | both chromosomes are moved by operator k and a new solution is built from them whose routes are depot-ended and drawn from the moved ones and whose evaluation is consistent |
| LocalSearch.RepeatStep | Program/LocalSearch.cpp:50-57 | one round counts; the best never gets worse and is no worse than the trial; it is the old best or the trial; misses reset or grow by one |
| LocalSearch.RepeatRunBest | Program/LocalSearch.cpp:48-58 | after the rounds the best is the start's or one of the trials, is no worse than the start and than every trial, and every trial was counted |
| LocalSearch.IdleRepeatKeeps | Program/LocalSearch.cpp:48-58 | rounds whose trial is always the starting solution keep it and count every round as a miss |
| LocalSearch.AsWrittenMissesImprovement | Program/LocalSearch.cpp:49-50 | a strictly better result of the move would become the best, but the round as written, whose trial is the unchanged solution, keeps it and counts a miss |
| LocalSearch.RepeatAsWritten | Program/LocalSearch.cpp:44-58 | the repetition as written returns the improved solution unchanged after min(itEDU, 1000) rounds, none for itEDU at most 0 |
| LocalSearch.RepeatImproving | Program/LocalSearch.cpp:44-58 | the trials form a chain of moves from the improved solution; the result is the best of them, no worse than the start, with well-formed routes |
| LocalSearch.Run | Program/LocalSearch.cpp:15-62 | the moves are tried in a duplicate-free order, each on the given solution; either none improved, all nine were tried and the solution is kept, or the last tried strictly improved and the result is no worse than it with a consistent evaluation |
| LocalSearch.RemoveDistinct | Program/LocalSearch.cpp:42 | erasing one move from the duplicate-free list leaves exactly the others |
| Similarity.HitsAll | Program/Population.cpp:129-133 | a route whose arcs all lie in the set finds every one of its arcs there |
| Similarity.HitsBound | Program/Population.cpp:129-133 | a route finds no more arcs than it has |
| Similarity.ChromHitsAll | Program/Population.cpp:126-141 | a chromosome whose arcs all lie in the set finds exactly its arc count |
| Similarity.AddRouteArcs | Program/Population.cpp:118 | the set gains exactly the arcs of the route |
| Similarity.AddChromArcs | Program/Population.cpp:117-119 | the set gains exactly the arcs of every route of the chromosome |
| Similarity.CountRouteHits | Program/Population.cpp:130-132 | the count is the number of the route's arcs found in the set |
| Similarity.CountChromHits | Program/Population.cpp:129-133 | the count is the number of the chromosome's arcs found in the set |
| Similarity.CollectArcs | Program/Population.cpp:114-123 | the truck and repairman arc sets hold every arc of every solution's truck and repairman routes |
| Similarity.GetSimilarity | Program/Population.cpp:99-143 | every solution's similarity becomes its own truck plus repairman arc count, since each of its arcs is in the archive's set; nothing else changes |
| Similarity.GetBiasedFitness | Program/Population.cpp:148-169 | the archive becomes its ranking: sorted by objective, then by similarity, then ranked by position |
| Similarity.Positions | Program/Population.cpp:156-157 | the vector holds i + 1 at position i |
| Similarity.AssignRanks | Program/Population.cpp:163-168 | position i gets rankSim i + 1, rankFit ranksFit[i] and the biased fitness from those ranks with no elite |
| Similarity.AssignedRanks | Program/Population.cpp:156-168 | with ranksFit[i] = i + 1 the loop ranks every solution by its position |
| Similarity.KeysPerm | Program/Population.cpp:153-161 | permuting an archive permutes its route keys |
| Similarity.NonEmptyPerm | Program/Population.cpp:153-161 | whether every route is non-empty depends on the route keys only |
| Similarity.DuplicateFreeSub | Program/Individual.h:65-69 | an archive drawn from a duplicate-free one, by route keys, is duplicate-free |
| Similarity.DuplicateFreeAppend | Program/Individual.h:65-69 | a solution whose routes the archive lacks joins it without creating a duplicate |
| Similarity.RankAllKeeps | Program/Population.cpp:163-168 | ranking rewrites neither the routes nor the similarity |
| Similarity.RankingKeys | Program/Population.cpp:148-169 | the ranked archive's route keys are a permutation of the input's |
| Similarity.RankedTwice | Program/Population.cpp:166-167 | with both ranks i + 1 and no elite, the biased fitness is 2 (i + 1) |
| Similarity.RankAllFacts | Program/Population.cpp:163-168 | ranking by position keeps the order and gives position i both ranks i + 1 and biased fitness 2 (i + 1) |
| Similarity.RankingFacts | Program/Population.cpp:148-169 | as written, the ranked archive is in similarity order, position i has both ranks i + 1 and biased fitness 2 (i + 1) whatever the objective values, and the biased fitness strictly increases along it |
| Similarity.ArcSimilarPerm | Program/Population.cpp:153-161 | a permutation of solutions whose similarity is their arc count keeps that property |
| Similarity.RescoredSimilarity | Program/Population.cpp:99-143 | as written, every rescored solution's similarity is its own arc count |
| Similarity.RescoredKeys | Program/Population.cpp:99-143 | rescoring keeps the route keys, non-empty routes and duplicate freedom |
| Populations.CutLowest | Program/Population.cpp:57-59 | cutting a sequence sorted by a key splits its members so that nothing dropped has a lower key than anything kept |
| Populations.TruncateLowest | Program/Population.cpp:56-59 | the cut archive keeps exactly mu of its members and no dropped member has a lower biased fitness than a kept one |
| Populations.TruncateKeys | Program/Population.cpp:59 | the cut archive's routes are drawn from the archive's |
| Populations.RatioBelow | Program/Population.cpp:77-80 | for a positive total, the feasible proportion is below (above) a bound exactly when the feasible count is below (above) bound times total |
| Populations.MultiplierRule | Program/Population.cpp:71-83 | the multiplier is 1.2 exactly when some solutions were added and fewer than target - 0.05 of them are feasible, 0.85 exactly when more than target + 0.05 are (and not fewer), and 1 otherwise or when none were added |
| Populations.Reevaluate | Program/Population.cpp:86-87 | the loop re-evaluates every solution of the archive |
| Populations.ReevaluatedFacts | Program/Population.cpp:84-89 | re-evaluation keeps the routes and every evaluation field but the objective, which becomes the objective under the new penalty, so consistent evaluations stay consistent |
| Populations.RefilledTakes | Program/Population.cpp:221-231 | the refill appends the last candidates, last one first, no more than there are |
| Populations.RefilledFacts | Program/Population.cpp:216-231 | with candidates sorted by biased fitness, the refilled archive is the kept members followed by the candidates of largest biased fitness, largest first; it ends with at most mu + 1 members, fewer only when the candidates ran out |
| Populations.NewCandidatesFresh | Program/Population.cpp:201-208 | every candidate is a newcomer of the side's feasibility whose routes no kept member of that side has |
| Populations.NewCandidatesStep | Program/Population.cpp:195-208 | one more newcomer becomes a candidate of its side exactly when no kept member of that side has its routes |
| Populations.RefilledSide | Program/Population.cpp:176-234 | one diversified side holds only routes it held before or routes of the newcomers read |
| Populations.DiversifiedKeys | Program/Population.cpp:176-234 | every route pair of a diversified archive was in it before or belongs to a newcomer |
| Populations.AdmittedKeys | Program/Population.cpp:255-275 | after admission an archive holds only its former routes and the offered solution's |
| Populations.Population.constructor | Program/Population.cpp:6-7 | a new population has empty archives and latest-load lists and the default penalty coefficient |
| Populations.Population.UpdateAllBiasedFitness | Program/Population.cpp:277-282 | both archives are rescored (similarity, then ranking); nothing else changes |
| Populations.Population.AddIndividualToSubpopulation | Program/Population.cpp:255-275 | the solution is added exactly when its side's archive has no member with the same routes; then it joins that archive and its latest-load list and both archives are rescored; otherwise nothing changes |
| Populations.Population.SizeControl | Program/Population.cpp:54-69 | each archive that reached the maximum size is ranked and cut to its mu best by biased fitness; smaller ones are left alone |
| Populations.Population.AdjustmentBasedOnProportion | Program/Population.cpp:71-91 | the multiplier follows the feasible proportion of the recent solutions; when it is not 1 the penalty is multiplied by it, recorded as the coefficient and every solution re-evaluated; otherwise nothing changes |
| Populations.Population.GetBinaryTournament | Program/Population.cpp:236-253 | two distinct positions over both archives are drawn; the winner is one of them with the lower biased fitness, the second on a tie |
| Populations.Population.Diversification | Program/Population.cpp:176-234 | each archive keeps its best mu / 3; newcomers unlike the kept members become candidates while the loop condition holds; the candidates are rescored, sorted and moved over from the back while the archive has at most mu members |
| Populations.Population.GenerateInitialPopulation | Program/Population.cpp:9-25 | the archives stay well formed and never exceed mu + lambda members; the penalty ends as it was or at the coefficient |
| Populations.Population.EducateAndRepair | Program/Population.cpp:27-52 | one to three searches; each repeat follows an infeasible result with ten times the previous penalty, and a repeat after the first ends feasible when there are only two; the penalty is reset to the coefficient after a repair; each archive grows by at most three; every search result has its routes archived on its own side |
| Populations.Population.SearchAndArchive | Program/Population.cpp:29-32 | one search followed by addIndividualToSubpopulation: the archives stay well formed, grow by at most one, keep every route pair they held and hold the result's routes on its side; the penalty is unchanged |
| Populations.Population.Repair | Program/Population.cpp:37-49 | after an infeasible first search, the search is repeated at ten times the penalty and once more at a hundred times when still infeasible; every result is archived on its side; the penalty ends at the coefficient |
| Populations.AdmittedKeeps | Program/Population.cpp:255-275 | addIndividualToSubpopulation never drops a route pair from an archive, and the side the solution joins then holds its routes |
| Populations.Admit | Program/Population.cpp:259-274 | one archive after admission: unchanged when nothing was added, otherwise rescored with the solution appended when it joins, and it stays well formed |
| Populations.SizeControlled | Program/Population.cpp:54-69 | an archive that reached the maximum size keeps mu members, a smaller one all; its routes are drawn from the archive's and stay non-empty and duplicate-free |
| Populations.SubKeysOk | Program/Population.cpp:59 | an archive drawn from another keeps non-empty routes and the lack of duplicates |
| Populations.ControlArchive | Program/Population.cpp:55-61 | one archive after the size guard and the cut is the size-controlled archive |
| Populations.ControlOne | Program/Population.cpp:56-59 | the cut archive is the first mu of the ranking and keeps non-empty routes and the lack of duplicates |
| Populations.KeepBest | Program/Population.cpp:179-184 | the archive keeps its best mu / 3 by biased fitness, with non-empty routes |
| Populations.Candidates | Program/Population.cpp:187-209 | the candidates are the fresh newcomers read while the loop condition held, and reading stops when it fails or the newcomers run out |
| Populations.Score | Program/Population.cpp:210-219 | the candidate list is rescored and sorted by biased fitness |
| Populations.Refill | Program/Population.cpp:221-231 | the loop moves candidates over from the back while the archive has at most mu members |
| Populations.RefilledOk | Program/Population.cpp:221-231 | refilling from solutions with non-empty routes keeps every route non-empty |
| Populations.Rescore | Program/Population.cpp:277-281 | the archive is rescored and keeps non-empty routes |
| Populations.AppendedOk | Program/Population.cpp:261-274 | an archive that gains a solution it lacked stays well formed and duplicate-free once rescored |
| Populations.Educate | Program/Population.cpp:28-29 | the searched solution has well-formed routes, is the input or has a consistent evaluation, and is no worse |
| Populations.Replenish | Program/Population.cpp:210-231 | one side's candidates are scored, sorted and moved over into the archive |
| Populations.Diversify | Program/Population.cpp:176-234 | both archives are diversified as the diversification relation says and stay well formed |
| Genetics.CutPair | Program/Genetic.cpp:95-104 | the two cut points are distinct and ordered, both below the shorter route's length |
| Genetics.CutPairCovers | Program/Genetic.cpp:95-104 | every ordered pair of distinct cut points below the length is drawn by some pair of raw draws |
| Genetics.Rotated | Program/Genetic.cpp:114-118 | reading routeB circularly from index k gives, at position i, routeB's value at k + i wrapped at the end |
| Genetics.Crossed | Program/Genetic.cpp:105-147 | when the crossover ends, the offspring has routeB's length and holds routeA's segment [t, y] in place |
| Genetics.SweepAll | Program/Genetic.cpp:134-146 | the type-1 sweep fills every place outside the segment, in wrapped order from y + 1, with routeB's values read in wrapped order from y + 1 |
| Genetics.SweepDistinct | Program/Genetic.cpp:114-129 | the type-0 sweep ends exactly when routeB holds enough values that are not in the segment, not 0 and not repeated; it then fills the places after y and before t with the first of those values in sweep order |
| Genetics.CrossedCopies | Program/Genetic.cpp:130-146 | type 1 is the copy crossover: routeB's values before t and after y around routeA's segment |
| Genetics.CrossedPermutes | Program/Genetic.cpp:110-129 | type 0 is the order crossover: when both routes visit the same stations, each once and never the depot, the sweep ends and the offspring is a permutation of routeB without repeats |
| Genetics.CrossedIds | Program/Genetic.cpp:105-147 | the crossover brings in no new value: every offspring value comes from routeA, from routeB or is the depot 0 |
| Genetics.DistinctCounts | Program/Genetic.cpp:124 | a route has no repeated value exactly when every value occurs at most once in it |
| Genetics.FreshOutside | Program/Genetic.cpp:124-127 | on a route without repeats and without the depot, the type-0 sweep writes exactly the route's values that are outside the segment, in order |
| Genetics.FreshFills | Program/Genetic.cpp:117-129 | on such a sweep holding every value of the segment, the writes and the segment together are the sweep's values, one place per write |
| Genetics.DrawCuts | Program/Genetic.cpp:95-104 | the cut points are CutPair of the engine's next two draws, and the engine advances by two |
| Genetics.SegmentBuffer | Program/Genetic.cpp:105-109 | the new buffer has routeB's length, routeA's segment on [t, y] and 0 everywhere else |
| Genetics.OrderedCrossover | Program/Genetic.cpp:89-149 | routeB unchanged, with no draw, when the shorter route has at most one entry; otherwise the crossover at the cut pair of the next two draws |
| Genetics.OutcomeFacts | Program/Genetic.cpp:89-149 | for any cut pair: no new station is brought in; type 1 always returns; type 0 returns a permutation without repeats on routes visiting the same stations once each and not the depot |
| Genetics.Stripped | Program/Genetic.cpp:173-176 | erasing the first and last entries leaves the route's inner entries in order, two fewer |
| Genetics.CrossRoute | Program/Genetic.cpp:172-180 | crossing the inner parts of two routes and wrapping the result between depot visits gives a route of station ids that is an outcome of orderedCrossover; type 1 always returns and type 0 returns, as a permutation without repeats, on proper repairman routes |
| Genetics.CrossoverOX | Program/Genetic.cpp:163-211 | each truck route is crossed with type 1 when both parents' routes visit a station and copied from the first parent otherwise; each repairman route is crossed with type 0; the offspring is built from those routes and evaluated under the current penalty; it exists whenever the parents' repairman routes are proper |
| Genetics.TrailingMissesAre | Program/Genetic.cpp:56-81 | the non-improving streak is c exactly when the last c iterations did not improve and the one before them, if any, did |
| Genetics.StreakStep | Program/Genetic.cpp:56-81 | an improving iteration resets the streak to 0 and any other adds one; the diversification test reads the streak after the reset and before the count |
| Genetics.SortedFirst | Program/Genetic.cpp:23-28 | the first member of the archive sorted by objective is a member with the least objective |
| Genetics.StartArchives | Program/Genetic.cpp:21-28 | both archives are rescored, the feasible one is sorted by objective, and the incumbent is a rescored feasible member with the least objective |
| Genetics.Genetic.constructor | Program/Genetic.cpp:254-256 | the engine holds the parameters, the instance and the population it is given |
| Genetics.Genetic.Start | Program/Genetic.cpp:21-28 | the incumbent is one of the rescored feasible members, with the least objective among them |
| Genetics.Genetic.Breed | Program/Genetic.cpp:34-54 | the tournament cannot draw exactly when there are fewer than two archived solutions; otherwise the offspring has well-formed routes, or the repairman crossover would not end; the population changes only when an infeasible offspring is searched again on the coin, and then exactly as addIndividualToSubpopulation of that search's result; the penalty is unchanged |
| Genetics.Genetic.Admission | Program/Genetic.cpp:53 | the offspring is archived exactly when its side holds no solution with the same routes; then it joins that side's archive and latest-load buffer and both archives are rescored; the other side and the penalty are unchanged |
| Genetics.Genetic.Diversify | Program/Genetic.cpp:61-64 | diversifying and rescoring keep every archived solution's routes well formed |
| Genetics.Genetic.Penalize | Program/Genetic.cpp:67-71 | the penalty is multiplied by the multiplier of the latest feasible proportion; when that is not 1 the coefficient follows it and both archives are re-evaluated; both latest-load buffers end empty; the archives stay well formed |
| Genetics.Genetic.Manage | Program/Genetic.cpp:58-71 | diversifies exactly when the streak is a positive multiple of 1000 and adjusts the penalty exactly when the iteration number is a positive multiple of nbIterPenaltyManagement |
| Genetics.Genetic.Run | Program/Genetic.cpp:15-87 | the result is the first incumbent unless some iteration improved, and then a feasible solution with a strictly lower objective; the streak returned is the trailing run of non-improving iterations; every iteration started with terminateCondition true and diversified exactly when its streak was a positive multiple of 1000; the run finishes exactly when terminateCondition fails; the penalty was adjusted exactly at the iterations whose number is a positive multiple of nbIterPenaltyManagement |

Several behaviours of the program are modelled as written and stated as such by the members above:

- `getSimilarity` adds every solution's own arcs to the sets it compares against. The similarity is therefore the solution's own arc count (`Similarity.RescoredSimilarity`).
- `getBiasedFitness` ranks by similarity with no elite. Position i therefore gets the biased fitness 2 (i + 1), whatever the objective values (`Similarity.RankingFacts`).
- `diversification` refills while an archive has at most mu members, so it can end with mu + 1 (`Populations.RefilledFacts`).
- `Genetic::run` archives an offspring only on the infeasible, coin-selected branch. The incumbent test reads the offspring searched once (`Genetics.Genetic.Breed`).
- The greedy assignments for trucks and repairmen go back to the stock snapshot taken before the first vehicle of their kind.
- The truck amendment scans its pending stations in schedule order. It does not credit the bikes it unloads to any station's stock (`TruckAmendment.StockLoaded`).
- The grant of freed time in `assignTruckScheme` is truncated to an integer (`TruckScheme.Grant`).

## Left out

- In-place updates and aliasing. The vectors and `shared_ptr` schedule entries that the program updates through references are passed in and returned as values. No property relies on two names sharing an entry.
- `std::sort` tie order. Sorting is specified as "ordered by the key and a permutation", and no property depends on the order of equal keys. `Evaluation.StockIgnoresOrder` shows the replayed stock does not depend on it.
- Integer width and floating point. Quantities are unbounded `int`. Times, priorities and objectives are exact `real`s, so no property depends on rounding. The one integer truncation that matters, the grant of freed time, is written out as a floor.
- Random distributions. Every draw is an explicit raw number from an `Rng` stream. Loops that redraw until a condition holds are modelled by one draw over the accepted values (`Random.PickOther`). The model states which outcomes are possible (`Random.PickOtherCovers`, `LocalSearch.CutsCover`, `Genetics.CutPairCovers`), not how likely each is.
- The fair coins. `uniform_real_distribution(0,1) < 0.5` in `educateAndRepair` and `ran() % 2 == 0` in `Genetic::run` are both a draw that is even.
- Random route construction. `rpmRouteInit` and `trkRouteInit` (Individual.cpp:96-269) are not modelled. `Populations.Population.GenerateInitialPopulation` takes the random newcomers as a parameter.
- Populations.Population.GenerateInitialPopulation: the wall-clock bound of its loop is not modelled. The caller bounds the work by the number of newcomers it supplies, at most 4 mu of which are used.
- Genetics.Genetic.Run: the loop that calls `generateInitialPopulation` again until some solution is feasible (Genetic.cpp:18-19) is not modelled. Run instead requires a non-empty feasible archive.
- Genetics.Genetic.Run: the iterations are bounded by a fuel parameter `maxIter`, reported as `OutOfFuel`. The clock is a parameter, `clock(k)` whole seconds at the k-th loop test.
- Genetics.Genetic.Run: when the program would loop forever, the run stops with a reason instead:
  - `getBinaryTournament` cannot draw two distinct members from fewer than two (`TournamentHangs`);
  - a repairman crossover's type-0 sweep cannot fill the offspring (`CrossoverHangs`).
- Genetics.SweepDistinct: where the program's type-0 sweep never ends, the method stops after reading routeB once round and reports `false`. `Genetics.CrossedPermutes` shows this cannot happen on routes that visit the same stations once each.
- Genetics.Genetic.Diversify: states only that the archives stay well formed. What it does to them is stated by `Populations.Population.Diversification` and `Populations.Population.UpdateAllBiasedFitness`, which it calls.
- Genetics.CrossoverOX: requires both parents to carry exactly nbVehicles truck routes and nbRepairmen repairman routes, each of at least two entries of station ids. The program reads those routes by index.
- Genetics.Genetic.Run: the CPU time, the progress trace and the final console lines are not modelled. Nor are `saveResults`, `displayAnIndividual` and `display2DVector`, which only print or write files.
- Instances: reading the instance files (Instance.cpp) and command-line parsing (Args.cpp, cmdparser.hpp) are not modelled. The tables are given.
- The unused route ordering in `assignRepairmanScheme` (`routeByPriority`, `extraTime`, Utils.cpp:439, 452, 456-464) is not modelled. Its values are never read.
- The `route.size() == 2` branch of `relocateOneNode` (LocalSearch.cpp:175-176) is not modelled. After the guard `route.size() > 3` and one erase it cannot be taken.
- LocalSearch.Run: the move name read from the move list after the move was erased (LocalSearch.cpp:49) is not modelled. It is only a label for display, and the move applied is modelled.
- LocalSearch.DeleteMultipleNodes: states which entries may go and what stays, not the order in which the deletions happen.
- TruckAssignment.UnloadUsable: does not claim that usable stock stays non-negative. A shortfall record overwritten with 0 keeps its old surplus, so a later backfill can draw on bikes the station no longer has.
- TruckAmendment.ProvideUsable: states the bounds of the usable bikes handed on. It does not state that the amount is the largest those bounds allow.
- TruckAmendment.TruckSchemeAmendment and RepairAmendment.RepairmanSchemeAmendment: the amended schedules do not update the individual's routes, as in the program. The initial stock is assumed to be within every station's bounds (`InitialStockOk`).
- TimeAllotment.GetMaxOpTime: when the priorities of a route's stations sum to 0, the program divides 0 by 0. The resulting NaN fails every comparison, so each station ends with its required time. The model states that outcome directly (`TimeAllotment.AllRequired`).
- Populations.Population.Diversification: requires mu >= 0. Genetics.Genetic.Run also requires `nbIterPenaltyManagement > 0`, since the program takes the remainder by it.

## Findings

| source | as written | input that shows it | evidently intended | confidence | as-written member | corrected member |
|---|---|---|---|---|---|---|
| Program/helpers/Utils.cpp:757-775 | `std::unique` turns a route of three or more depots into `[0]`. Neither depot guard adds a second entry, since that one entry is both first and last. Every later step reads at least two entries, e.g. `route[1]` and `rSchemeVec[1]`. | the route `[0, 0, 0]` | every normalised route keeps two depot ends, so an all-depot route becomes `[0, 0]` like the route `[0, 0]` the guard skips | not executed | Routes.CombineCollapsesAllDepotRoutes | Routes.CombineRoute |
| Program/LocalSearch.cpp:48-58 | The repeat loop calls the move on `educated_ind` and discards the result. Every round then re-reads the unchanged objective, counts a miss and cannot improve. | any solution and move k where one more application of move k gives a strictly lower objective | each round keeps the moved solution as the next trial (`educated_ind = executeAndDisplayMove(...)`), and a strictly better trial becomes the incumbent | not executed | LocalSearch.AsWrittenMissesImprovement | LocalSearch.RepeatImproving |
