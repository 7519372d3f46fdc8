# psa-core in Dafny

psa-core is a heuristic route optimiser for the single-vehicle Pickup and
Delivery Problem with Time Windows (PDPTW). A route is a permutation of
the node ids of one instance. It starts at the start node, and every
delivery has to come after its pickup. Each node has to be reached by its
due date, after waiting for its ready time. The load on board must never
exceed the vehicle's capacity.

The solver builds a first route with a construction strategy: random,
nearest neighbour, by due date or by the middle of the time window. A
penalty-driven repair loop then disturbs and shifts single nodes until
the route is feasible. 2-opt local searches (segment reversal) and
node-shifting searches improve the result. They keep per-position caches
of the clock, the load and the precedence pairing, and patch those caches
after each move instead of recomputing them. Variable neighbourhood
drivers (VND, VNS, GVNS and restart loops) alternate disturbance and
local search, and keep the best route under one of three objectives:
makespan, total time, or asymmetric total time.

The repository holds four generations of these ideas:

- `core`: the current design;
- `pdptw`: an older snapshot of the same problem;
- `gvns`: a TSP with time windows only;
- `pdp`: pickup and delivery with precedence only.

All four packages, and the `utils` helpers, are modelled here.

## Layout

One Dafny module per source file. Shared pieces are stated once:

| file | module | models |
|---|---|---|
| utils.dfy | Utils | utils/utils.go; `Max` and `Get` helpers |
| instance.dfy | Instance | the PDPTW instance of core/pdptw.go and pdptw/pdptw.go (the two share their fields), its creation, the record interpretation over tokenised lines, `preprocess` |
| schedule.dfy | Schedule | the clock, load and distance recurrences every evaluator walks |
| routes.dfy | Routes | the relocation (`exchange`), swap (`change`) and median reversal loops that every package repeats, and the sorting used for `sort.Slice`/`sort.Sort` |
| nearest.dfy | Nearest | the nearest-neighbour tour that gvns/greedy.go, pdptw/greedy.go and pdptw/generate.go repeat word for word, with `getMinIndex` |
| core_*.dfy | CoreSolution, CoreConstruction, CoreLocal2Opt, CoreLocalShifting, CoreObjective, CoreSearch | the core package |
| pdptw_*.dfy | PdptwSolution, PdptwConstruction, PdptwLocal2Opt, PdptwGenerate, PdptwVns | the pdptw package |
| gvns_*.dfy | GvnsTsp, GvnsSolution, GvnsLocal2Opt, GvnsGreedy, GvnsSearch | the gvns package |
| pdp_*.dfy | PdpSolution, PdpRandom, PdpConstruction, PdpLocal2Opt, PdpVns | the pdp package |

The model follows the source's structure:

- Each Go `Solution` and search struct is a Dafny `class`.
- Route slices written in place are `array<int>` fields.
- The cached slices and maps are `array` and `map` fields that the methods rewrite.
- Pure evaluators are functions on `route[..]`.
- Every loop of the source is a `while` loop with invariants, proved against such a function.

Two choices recur throughout:

- **Aliasing.** Go slices that alias are modelled by sharing one array: `x2 := x` in core/vnd.go, and `NewSolution(s.tsp, s.route)` in the pdptw and pdp `disturb`.
- **Randomness.** `rand.Intn`, `rand.Int() % n`, `rand.Perm` and `utils.Random` are nondeterministic choices within the range the code uses, so every property holds for every draw.

The pdptw/pdptw.go record interpretation (lines 91-109) and its
`preprocess` are the same code as core/pdptw.go:113-130 and 150-164. So
`Instance.Record` and `Instance.Preprocess` model both. The pdptw
`indexOf` (pdptw/local2opt.go:823-830) is the linear search of
utils/utils.go:41-48, modelled once as `Utils.IndexOf`. pdptw/generate.go
and pdptw/greedy.go repeat `GetRandom`, `Greedy` and `GetRandomPD`, and
PdptwGenerate models each once.

## Behaviour worth knowing

The model follows the code in each of these places:

- **Repair loop disturbance.** The pdptw and pdp `disturb` build their result with `NewSolution(s.tsp, s.route)` (pdptw/construction.go:185, pdp/construction.go:221). That wraps the input's own route slice, so their moves change the input too. In pdp/construction.go:24 the comparison `x2.Penalty() < x.Penalty()` therefore compares a route with itself and never holds.
- **VND.** core/vnd.go:10 sets `x2 := x`, so both names point to one solution. The test `get(x2) < get(x)` at core/vnd.go:16 is always false, and the loop body runs exactly once (`CoreSearch.VndProcess`).
- **getSet.** core/solution.go:161-165 and pdptw/solution.go:107-152 append to the same list in both branches of the set-type test. Both set types therefore yield the positions the flag of core/solution.go:158 marks.
- **Penalty.** With positive weights and a route that repeats no node, core's weighted penalty (core/construction.go:198-247) is 0 exactly when every step meets its capacity, precedence and due date. The `isFeasible` of core/solution.go:96 also needs the closing load to be 0, which the penalty does not measure (`CoreConstruction.PenaltyZeroIffFeasibleSteps`). The weights of `config.Penalty` are plain integers whose sign is never checked. The repair passes still end for any weights: every kept move lowers the penalty strictly, and the penalties of the routes of one length have a floor (`CoreConstruction.PenaltyAboveFloor`). The pdp penalty (pdp/solution.go:89-110) adds the position index of a pickup that comes too late, not a distance. A zero pdp penalty implies feasibility only when every pickup is on the route (`PdpSolution.PenaltyZeroIffFeasible`).
- **Nearest neighbour.** pdptw/generate.go:78-95 starts the greedy tour at node 0, whatever the instance's start node.

## Model

| member | source | states |
|---|---|---|
| Utils.IndexOf | utils/utils.go:41-48 | the result is the first index holding the element, or -1 exactly when it is absent |
| Utils.FirstIndexAt | utils/utils.go:41-48 | a position holding x with no earlier occurrence of x is the index IndexOf reports |
| Utils.Equal | utils/utils.go:25-35 | true iff both slices have the same length and the same element at every index, i.e. iff they are equal |
| Utils.Map | utils/utils.go:8-14 | a slice of the same length holding f of each element, index by index |
| Utils.MapIntToStr | utils/utils.go:17-23 | a slice of the same length holding f of each element, index by index |
| Utils.Random | utils/utils.go:37-39 | requires max > min; the value lies in [min, max) |
| Instance.CreateInstance | core/pdptw.go:21-45 | name "instance", numNodes the matrix size, every other argument copied unchanged, pred and arcs empty; well formed when the windows have one entry per row |
| Instance.ZeroInstance | pdptw/pdptw.go:21-23 | every field is its zero value; the zero instance is well formed and has no tasks |
| Instance.NumberOfTasks | core/pdptw.go:146-148 | numNodes halved with truncation toward zero: the remainder is 0 or 1 for non-negative counts and 0 or -1 for negative ones |
| Instance.GoDiv | core/pdptw.go:146-148 | Go's quotient: truncation toward zero, bounded on both sides for either sign of the dividend |
| Instance.Record | core/pdptw.go:113-133 | a 7-field record sets the delivery's precedence to its pickup, pred both ways, opposite demands and both windows; when pickup and delivery coincide the later write wins (the delivery's demand and window, the pickup's pred entry). A 4-field record sets precedence -1 for its second field, the node's demand and its window, and leaves pred alone. Every other key and index keeps its value, any other length changes nothing, and the other fields and sizes are kept |
| Instance.RecordPair | core/pdptw.go:113-125 | after a 7-field record for two distinct nodes the pickup and the delivery demands sum to zero and pred points both ways |
| Instance.Header | core/pdptw.go:95-109 | numNodes, capacity and startNode from the first three fields, traveled and carrying from the next two when present, zeroed windows of numNodes entries |
| Instance.ReadLine | core/pdptw.go:95-134 | line 0 is the header, lines 1..numNodes append a matrix row, later lines are task records; numNodes is fixed after the header |
| Instance.Preprocess | core/pdptw.go:150-164 | one row per matrix row; for i != j the arc exists iff readyTime[i] + matrix[i][j] <= dueDate[j]; no diagonal arc is written, so a diagonal lookup is false |
| Schedule.ArriveAt | core/solution.go:70-78 | the clock of the feasibility scan (add the edge, then wait): from the second position on it is never below the node's ready time |
| Schedule.TimeAtPrefix | core/solution.go:223-232 | the MakeSpan clock at position k depends only on the route up to k |
| Schedule.LoadPrefix | core/solution.go:70-73 | the load before position k depends only on the route before k |
| Schedule.ArriveIsWaitedTime | core/construction.go:205-218 | once the start time covers the first ready time, the travel-then-wait clock is the wait-then-travel clock followed by a wait, so an arrival is never below the ready time |
| Schedule.TimeAtMonotone | core/objective.go:29-38 | the departure-based clock never decreases when the start time, any matrix entry or any ready time grows |
| Schedule.ClockFromTimeAt | core/local2Opt.go:73-108 | restarting the clock at position lo from its cached value gives the from-scratch clock at every later position |
| Schedule.LoadFromLoad | core/local2Opt.go:73-108 | restarting the load at position lo from its cached value gives the from-scratch load at every later position |
| Schedule.ClockCatchesUp | core/localShifting.go:148-224 | a route that agrees with another from position k0 on and is not later at k0 is not later anywhere after k0 |
| Routes.Relocated | core/solution.go:172-184 | the moved route has the same length and the same multiset of nodes |
| Routes.RelocatedAt | core/solution.go:172-184 | position by position: outside the moved span nothing changes, the node lands at newPos and the nodes in between shift by one toward pos |
| Routes.RelocatedForwardAt | core/solution.go:174-177 | for newPos > pos the positions pos..newPos-1 take the node one place further on |
| Routes.RelocatedBackwardAt | core/solution.go:178-182 | for newPos < pos the positions newPos+1..pos take the node one place further back |
| Routes.RelocatedUndo | core/solution.go:172-184 | exchange(newPos, pos) after exchange(pos, newPos) restores the route |
| Routes.RelocatedFrom | core/solution.go:172-184 | every position of the moved route holds the node of one computed source position |
| Routes.UndoPointwise | core/construction.go:155-157 | a route equal position by position to the undo of a move is the route before the move |
| Routes.RelocatedKeepsStart | core/construction.go:131-163 | moves between positions 1.. never touch the start node |
| Routes.Swapped | core/solution.go:186-188 | positions i and j exchange their nodes and every other position is unchanged |
| Routes.SwappedPerm | core/solution.go:186-188 | a swap keeps the multiset of nodes and undoes itself |
| Routes.ReversedSpan | core/solution.go:266-272 | the reversal of route[start..end] keeps the route length; start > end leaves the route as it is |
| Routes.ReversedSpanPerm | core/solution.go:266-272 | reversing a segment keeps the multiset of nodes |
| Routes.ReversedSpanPeel | core/solution.go:269-272 | reversing a segment is swapping its two ends and then reversing the inside |
| Routes.ReversedSpanShort | core/solution.go:256-259 | a segment with start >= end (one position or none) is left unchanged |
| Routes.ReversedSpanTwice | core/local2Opt.go:55-71 | reversing the same segment twice restores the route |
| Routes.Exchange | core/solution.go:172-184 | the array after the move loop is the relocation of its old contents |
| Routes.Change | core/solution.go:186-188 | the array after change(i, j) is the old contents with i and j swapped |
| Routes.MirroredStep | core/solution.go:269-272 | one swap of the median loop extends the mirrored prefix and suffix by one position each |
| Routes.MirroredFull | core/solution.go:267-272 | once the loop passes the median (Go's truncating division) the whole segment is reversed |
| Routes.ReverseSpan | core/solution.go:263-272 | the median swap loop leaves the array as its old contents with route[start..end] reversed and every other position unchanged |
| Routes.Appended | core/solution.go:197-200 | append gives a fresh array holding the route followed by the node |
| Routes.Prefix | core/solution.go:202-205 | the slice route[:n] as a fresh array holding exactly the first n nodes |
| Routes.SearchBack | core/construction.go:222-228 | the backward scan finds the value iff it occurs among positions 1..i |
| Routes.SearchFrom | pdptw/solution.go:121-131 | the forward scan finds the value iff it occurs at position i or later |
| Routes.ValueSetSnoc | core/solution.go:347-351 | appending a node adds exactly that node to the visited set |
| Routes.DistinctIffFullSet | core/solution.go:347-356 | the visited set is never larger than the route, and as large as the route iff no node repeats |
| Routes.SnocRepeated | core/solution.go:347-356 | appending a node already present leaves the set as it is and makes the route repeat a node |
| Routes.SnocFresh | core/solution.go:347-356 | appending a new node adds it to the set and keeps the route free of repeats iff it was before |
| Routes.MultisetWithin | core/solution.go:172-188 | a rearrangement of a route over n nodes is still a route over n nodes |
| Routes.ReversedWithin | core/solution.go:266-272 | reversing a segment keeps the route over the same n nodes |
| Routes.RelocatedSameNodes | core/construction.go:131-163 | a move between positions 1.. keeps the length, the multiset of nodes and the start node |
| Routes.ReversedSameNodes | core/local2Opt.go:55-71 | reversing a segment that starts at position 1 or later keeps the length, the multiset of nodes and the start node |
| Routes.Insert | pdptw/generate.go:32-49 | inserting a node into a key-sorted sequence gives a key-sorted sequence with one more copy of that node |
| Routes.SortBy | pdptw/generate.go:32-49 | some key-sorted rearrangement of every sequence exists; sort.Slice returns one of them but Go does not fix the tie order |
| Routes.SortSlice | pdptw/generate.go:42-44 | sort.Slice as some rearrangement of the list whose keys never decrease; which order of equal keys comes out is left open |
| Routes.SwappedBetween | pdptw/local2opt.go:188-191 | swapping a failed pick behind the live candidates keeps every candidate within its bounds |
| Routes.SortedByAgree | pdp/solution.go:228-239 | two keys that agree on a sequence's entries order it alike |
| Nearest.GetMinIndex | gvns/greedy.go:7-17 | requires a non-empty array; the result is the first index of the minimum |
| Nearest.NearestNode | gvns/greedy.go:23-31 | the pick is the first unvisited index at the strictly smallest distance below MaxInt64, or 0 when there is none |
| Nearest.NearestStepsExtend | gvns/greedy.go:19-35 | appending to the tour keeps the greedy steps already taken |
| Nearest.NearestStepsAppend | gvns/greedy.go:21-34 | appending the nearest pick from the last node's row is one more greedy step |
| Nearest.MarkedAdd | gvns/greedy.go:33 | AddNode marks the node: the visited set grows by exactly that node |
| Nearest.SomeUnvisited | gvns/greedy.go:21-34 | fewer than n visited nodes leave some node of 0..n-1 unvisited |
| Nearest.NearestTourVisitsAll | gvns/greedy.go:19-35 | with every distance below MaxInt64, the first i+1 greedy positions are distinct nodes of the matrix |
| CoreSolution.SetUpToSpec | core/solution.go:137-169 | the positions getSet collects are exactly the positions of [1, k) that pass its test as written, in increasing order |
| CoreSolution.WritePairs | core/solution.go:303-311 | one precedence write of calcGlobals: a node with a predecessor is paired both ways with the predecessor's first index; any other position is marked -1 unless already written |
| CoreSolution.ClosePairs | core/solution.go:318-324 | the closing write pairs the last position and its predecessor's index both ways (a missing predecessor reads as node 0) |
| CoreSolution.PrecStepsKeys | core/solution.go:290-316 | every scanned position gets a precedence entry, and keys and values stay in [-1, len) |
| CoreSolution.PrecOfKeys | core/solution.go:280-327 | calcGlobals gives every position of the route a precedence entry, with keys and values positions or -1 |
| CoreSolution.LoadsUpToSpec | core/solution.go:313-315 | carrying[i] is tsp.carrying plus the demands of route[0..i], for exactly the positions written |
| CoreSolution.Solution.constructor | core/solution.go:29-36 | NewSolution keeps the instance and the route and marks the slice indices 0..len-1 (not the nodes) as visited |
| CoreSolution.Solution.Exchange | core/solution.go:172-184 | the route becomes its old contents with the node at pos relocated to newPos |
| CoreSolution.Solution.Change | core/solution.go:186-188 | the route becomes its old contents with positions i and j swapped |
| CoreSolution.Solution.AddNode | core/solution.go:197-200 | the node is appended and marked visited |
| CoreSolution.Solution.RemoveNode | core/solution.go:202-205 | the last entry is dropped whatever the argument, and the argument is unmarked |
| CoreSolution.Solution.IsFeasible | core/solution.go:66-101 | true iff, at every position 1..numNodes-1 (travel, then wait), the load stays within capacity, no predecessor sits at the same or a later index, no nonzero due date is missed, and the closing load is zero |
| CoreSolution.Solution.IsFeasibleEdge | core/solution.go:103-118 | the clock waits at route[i] and travels to route[j], the load adds route[j]'s demand, and the verdict is due date and capacity respected, with no exemption for a zero due date |
| CoreSolution.Solution.IsFeasibleRange | core/solution.go:120-135 | the result is the chain of isFeasibleEdge(k, k+1) for k = start..end-1 stopping at the first failure, with the clock and load of the last walked edge |
| CoreSolution.RangeWalkFollowsClock | core/solution.go:120-135 | a successful walk started from the MakeSpan clock at start ends on the MakeSpan clock at end, having added the demands of start+1..end |
| CoreSolution.Solution.GetSet | core/solution.go:137-169 | the same list for either set type; it holds exactly the positions in [1, len) whose test as written holds |
| CoreSolution.Solution.TotalDistance | core/solution.go:215-221 | the sum of all edge lengths of the route |
| CoreSolution.Solution.MakeSpan | core/solution.go:223-232 | the wait-then-travel clock on reaching the last node, starting from tsp.traveled |
| CoreSolution.Solution.Copy | core/solution.go:235-243 | a fresh route holding exactly the first numNodes entries, the same instance, and a nil nodes map (reads as empty) |
| CoreSolution.Solution.KExchange | core/solution.go:256-278 | iaux > jaux returns the receiver; otherwise a fresh copy with route[iaux+1..jaux] reversed is returned iff it is feasible, else the receiver; the result keeps the nodes and the start node, and the receiver is unchanged |
| CoreSolution.Solution.Disturb | core/solution.go:245-254 | a fresh solution over the same nodes with the same start node, equal to the receiver's route or feasible; the receiver is unchanged |
| CoreSolution.Solution.CalcGlobals | core/solution.go:280-327 | traveled[k] is the departure-based clock on reaching position k from tsp.traveled (traveled[0] is 0), carrying[i] the load after serving positions 0..i, and precedence the pairing of positions |
| CoreSolution.TimesUpToStep | core/solution.go:290-301 | writing the next clock value extends the part of traveled that matches the from-scratch recurrence |
| CoreSolution.SeededCachesExact | core/solution.go:283-301 | the clock cache of calcGlobals with the start time written at position 0 holds the true clock at every position, whatever the start time |
| CoreSolution.LateStartCaches | core/solution.go:280-327 | on an instance that starts at time 10 with unit travel, calcGlobals gives the route 0 1 2 3 the clock cache 0 11 12 13, loads 0, and no partner for positions 1 and 2 |
| CoreSolution.Solution.Check | core/solution.go:335-364 | true iff route[0] is the start node, the route has numNodes entries, no node repeats and IsFeasible holds |
| CoreConstruction.NewCons | core/construction.go:30-47 | "greedy", "sortBydueDate" and "sortByTW" select their strategies and every other name selects random; levelMax and the weights are kept |
| CoreConstruction.Penalty | core/construction.go:198-247 | the scan's result is the weighted sum TimeWindows·p_tw + PickupDelivery·p_pd + Capacity·p_c of the per-position terms |
| CoreConstruction.PartsStep | core/construction.go:207-242 | one position of the scan: the clock after travel and wait, the load, and the three terms it adds to the sums |
| CoreConstruction.PdAt | core/construction.go:222-237 | the pickup/delivery term at i: 0 when the predecessor is among positions 1..i, else the index at which the forward search over i..numNodes-1 finds it, or 0 |
| CoreConstruction.SearchForward | core/construction.go:230-235 | the first index from i up to numNodes-1 holding the value, or 0 when there is none |
| CoreConstruction.PartsNonNegative | core/construction.go:207-243 | each of the three sums is non-negative, and zero exactly when every one of its terms is zero |
| CoreConstruction.WeightedNonNegative | core/construction.go:245 | non-negative weights give a non-negative penalty; with positive weights it is zero iff all three sums are |
| CoreConstruction.PenaltyNonNegative | core/construction.go:198-247 | with non-negative weights the penalty is never negative |
| CoreConstruction.TermsBounded | core/construction.go:207-243 | each time-window, pickup/delivery and capacity term of a route is at most a bound fixed by the instance and the route length |
| CoreConstruction.PenaltyAboveFloor | core/construction.go:198-247 | for weights of any sign, no route of a given length has a penalty below a floor fixed by the weights, the instance and the length |
| CoreConstruction.FirstIndexBefore | core/solution.go:83-87 | the first index of a node is at or before any position holding it |
| CoreConstruction.FirstIndexBelow | core/solution.go:83-87 | the first index of x lies before i exactly when x is absent or occurs among the first i entries |
| CoreConstruction.MemberSplit | core/construction.go:222-237 | where a node can occur in a route split at position i |
| CoreConstruction.StartNotLater | core/construction.go:222-228 | in a route without repeats the start node does not occur again from position 1 on |
| CoreConstruction.PdTermZeroIff | core/construction.go:222-237 | on a route without repeats where no node is its own predecessor, the pickup/delivery term vanishes exactly where IsFeasible's precedence test passes |
| CoreConstruction.TermsZeroIffStepOk | core/construction.go:207-242 | position by position, all three terms vanish exactly where the three IsFeasible tests pass |
| CoreConstruction.PenaltyZeroIffFeasibleSteps | core/construction.go:198-247 | with positive weights, on numNodes distinct nodes with no self-precedence, the penalty is 0 iff every IsFeasible step passes, and IsFeasible holds iff the penalty is 0 and the closing load is 0 |
| CoreConstruction.Shifting | core/construction.go:113-182 | for any weights, of either sign: the loop ends, the route keeps its nodes and start node, its penalty never rises, an improved pass strictly lowers it, and the penalty result is at most the entry penalty (the kept move that reaches 0 returns with the value before it) |
| CoreConstruction.ShiftNode | core/construction.go:131-163 | a kept move is the first one that strictly lowers the penalty; without one every trial is undone and the route is unchanged |
| CoreConstruction.PositionsOf | core/solution.go:142-166 | a candidate set whose entries lie in 1..n-1 is a set of positions the scan may move |
| CoreConstruction.LocalSearch | core/construction.go:89-111 | for any weights the loop ends, and the four passes keep the nodes and the start node and never raise the penalty |
| CoreConstruction.Disturb | core/construction.go:184-194 | a fresh copy over the same nodes with the same start node (level random moves among positions 1..); the receiver is unchanged |
| CoreConstruction.GetSolution | core/construction.go:53 | whichever strategy is asked for, a fresh route of numNodes nodes of the instance |
| CoreConstruction.CopyTail | core/construction.go:66-69 | copying positions 1.. of x2 into x, which share position 0, makes the routes equal; position 0 is never written |
| CoreConstruction.Process | core/construction.go:49-87 | for any weights: when the loop ends on its own the solution returned is feasible or has penalty 0; it always has numNodes nodes of the instance |
| CoreLocal2Opt.MovedWithin | core/local2Opt.go:55-71 | reversing route[i+1..j] keeps the route over the instance's nodes |
| CoreLocal2Opt.ChecksPassShrink | core/local2Opt.go:114-218 | a due-date or capacity check that fails for a range fails for every longer range |
| CoreLocal2Opt.PrecSwapRelabels | core/local2Opt.go:69-70 | when i and j are paired with distinct partners outside {i, j}, the update moves both pairings across (j takes i's partner, i takes j's) and leaves the other entries alone |
| CoreLocal2Opt.UpdatedTimes | core/local2Opt.go:75-108 | the clock cache after the update has the length of the old one |
| CoreLocal2Opt.TimesRedoneStep | core/local2Opt.go:79-92 | writing the next clock extends the part of the cache that restarts from the cached clock at iaux |
| CoreLocal2Opt.TimesRedoneFull | core/local2Opt.go:75-108 | once both loops have run, the clock cache is the restarted recurrence over the reversed route |
| CoreLocal2Opt.LoadsRedoneStep | core/local2Opt.go:79-108 | writing the next load extends the part of the load cache that restarts from the cached load at iaux-1 |
| CoreLocal2Opt.UpdatedTimesFollow | core/local2Opt.go:73-108 | with iaux >= 1 (or a start at time 0) and a cache that matched calcGlobals, the updated traveled equals calcGlobals on the new route |
| CoreLocal2Opt.UpdatedLoadsFollow | core/local2Opt.go:73-108 | with iaux >= 1 (or an empty start load) and a cache that matched calcGlobals, the updated carrying equals calcGlobals on the new route |
| CoreLocal2Opt.SeededLoadsExact | core/local2Opt.go:223-260 | the load cache of calcGlobals with the start load under key -1 holds the true load at every key from -1 on |
| CoreLocal2Opt.UpdatedTimesExact | core/local2Opt.go:75-108 | from a clock cache that holds the true clock at every position, the update is exact on the reversed route for every iaux, 0 included, whatever the start time |
| CoreLocal2Opt.UpdatedLoadsSeeded | core/local2Opt.go:76-108 | from a load cache that holds the start load under key -1 and the true load after it, the update is exact on the reversed route for every iaux, 0 included |
| CoreLocal2Opt.ZeroStartLoadDrifts | core/local2Opt.go:76 | with a non-zero start load, the update from iaux = 0 restarts from the missing entry -1, which reads 0, so the load cache it leaves differs from calcGlobals on the new route |
| CoreLocal2Opt.ZeroStartTakesLate | core/local2Opt.go:116 | on the instance that starts at time 10, with calcGlobals' caches for 0 1 2 3, the span objective finds the move (0, 2) profitable and isFeasible accepts it from the cached 0, yet the reversed route 0 2 1 3 misses node 1's due date, while the route met every due date |
| CoreLocal2Opt.ChecksPassFollowClock | core/local2Opt.go:114-218 | checks started from the true clock and load at i follow the route's own clock and load |
| CoreLocal2Opt.ReversedKeepsPrefix | core/local2Opt.go:55-71 | the reversal of route[i+1..j] keeps positions 0..i |
| CoreLocal2Opt.ChecksPassFromPrefix | core/local2Opt.go:114-218 | checks started from the clock and load of a route sharing the first i+1 positions are the checks of the new route's own clock and load |
| CoreLocal2Opt.ReversedChecksFromPrefix | core/local2Opt.go:114-218 | the same for the route with route[i+1..j] reversed |
| CoreLocal2Opt.TwoOptFeasibleIffWindows | core/local2Opt.go:114-218 | from the true clock and load at i, isFeasible holds exactly when the reversed route meets every later due date, keeps the capacity after i and has no cached pair strictly inside the segment |
| CoreLocal2Opt.CheckStep | core/local2Opt.go:140-169 | one more position of the checks: the clock steps on, the load adds the previous demand, and the checks pass iff they passed before and the new position passes |
| CoreLocal2Opt.ScanStep | core/local2Opt.go:193-211 | one scan step from q to q+1 on the loop's values: the new clock and load, and a failing step means no longer range passes |
| CoreLocal2Opt.ReversedView | core/local2Opt.go:55-71 | position by position: the prefix up to i and the suffix after j stay, and position q of the segment holds route[i+1+j-q] |
| CoreLocal2Opt.MoveNotCostlier | core/local2Opt.go:39-47 | a move the objective finds profitable never makes the route costlier: for the span objective when the instance starts at time 0 and the clock cache holds the true clock, for the total-time objectives on a symmetric matrix |
| CoreLocal2Opt.MoveKeepsWindows | core/local2Opt.go:114-218 | a move isFeasible accepts against exact caches keeps every due date and the capacity along the whole route |
| CoreLocal2Opt.ExactMoveKeepsWindows | core/local2Opt.go:114-218 | a move isFeasible accepts when fed from caches that hold the true clock and load at i keeps every due date and the capacity |
| CoreLocal2Opt.MoveKeeps | core/local2Opt.go:39-47 | for any start time and start load: a profitable, accepted move applied by exchangeGlobalUpdate to caches that hold the true clock at every position and the true load from key -1 on keeps the nodes, the start node, such caches, the cost bound when the objective's test is exact, and every due date and the capacity when they held at the start |
| CoreLocal2Opt.Local2Opt.constructor | core/local2Opt.go:10-15 | a local2Opt holds the objective with empty caches |
| CoreLocal2Opt.Local2Opt.Process | core/local2Opt.go:17-53 | with the caches seeded with the start time and load (see Findings): the route keeps its nodes and start node; its cost never rises when the objective's test is exact; a route meeting every due date and the capacity still does, whatever the start time and load |
| CoreLocal2Opt.Local2Opt.TryStart | core/local2Opt.go:35-48 | one round for start position i: an accepted move reverses route[i+1..j] for some i+2 <= j < numNodes-1; otherwise the route is unchanged |
| CoreLocal2Opt.Local2Opt.FirstProfitable | core/local2Opt.go:39-47 | j is the first position from i+2 on at which the objective finds the move profitable, with isFeasible's verdict on it; no earlier j is profitable |
| CoreLocal2Opt.Local2Opt.Apply | core/local2Opt.go:41-44 | an accepted move reverses route[i+1..j] and keeps what process tracks |
| CoreLocal2Opt.Local2Opt.CalcGlobals | core/local2Opt.go:220-267 | the three caches are what Solution.calcGlobals computes for the route |
| CoreLocal2Opt.Local2Opt.SeedStart | core/local2Opt.go:223-241 | writes the start time at position 0 and the start load under key -1; caches that matched calcGlobals then hold the true clock and load at every position, whatever the start |
| CoreLocal2Opt.Local2Opt.Prepared | core/local2Opt.go:29 | the copy process works with holds calcGlobals' caches seeded with the start time and load, so what process tracks holds from the start |
| CoreLocal2Opt.Local2Opt.ExchangeGlobalUpdate | core/local2Opt.go:55-111 | the route becomes route[iaux+1..jaux] reversed and nothing else; the precedence map takes the four writes of each swap; traveled and carrying are redone from iaux on |
| CoreLocal2Opt.Local2Opt.SwapSegment | core/local2Opt.go:56-71 | the median loop reverses route[start..end] and applies the precedence update of each swapped pair |
| CoreLocal2Opt.Local2Opt.UpdateRange | core/local2Opt.go:79-108 | one cache loop carries the clock and load over its positions and stores them, extending the redone part of both caches |
| CoreLocal2Opt.Local2Opt.IsFeasible | core/local2Opt.go:114-218 | the verdict is the 2-opt test from the cached clock and load at i; nothing is written |
| CoreLocal2Opt.TwoOptCheck | core/local2Opt.go:114-218 | the edge i to j, the segment backwards with the precedence test, the edge i+1 to j+1 and the tail, compared without a due-date-0 exemption |
| CoreLocal2Opt.ScanFirst | core/local2Opt.go:120-136 | the clock after the edge i to j is the reversed route's clock at i+1; the test passes exactly when that node meets its due date and the load fits, and a failure here rules out the whole move |
| CoreLocal2Opt.ScanSegment | core/local2Opt.go:116-169 | the first half: success means the checks up to position j of the reversed route pass and no cached pair is inside; failure means the whole test fails |
| CoreLocal2Opt.ScanRound | core/local2Opt.go:140-169 | one round of the backward walk: success extends the passing checks by one position; failure means the whole test fails |
| CoreLocal2Opt.ScanRest | core/local2Opt.go:170-211 | the second half holds exactly when the checks pass over the positions after j |
| CoreLocalShifting.CachesExact | core/localShifting.go:36-83 | the caches calcGlobals writes hold the true clock at every position when the instance starts at time 0, and always the true load |
| CoreLocalShifting.ZeroStartAcceptsLate | core/localShifting.go:148-175 | on the instance that starts at time 10, with calcGlobals' caches for 0 1 2 3, which serves every position, isFeasible(1, 2) accepts, and the relocated route 0 2 1 3 misses node 1's due date |
| CoreLocalShifting.SeededRefusesLate | core/localShifting.go:148-161 | with the start time at position 0 of the clock cache, the same test refuses that move |
| CoreLocalShifting.EdgeWalkExact | core/solution.go:103-118 | one isFeasibleEdge step from the true clock and load at q-1 lands on the true clock and load at q and passes exactly when position q meets its due date and the capacity |
| CoreLocalShifting.RangeWalkExact | core/solution.go:120-135 | isFeasibleRange from the true clock and load at a passes exactly when every position after a up to b is served, and then ends on the true clock and load at b |
| CoreLocalShifting.RangeWalkShifted | core/solution.go:120-135 | isFeasibleRange depends only on the nodes it visits, so a range of r is the same walk on a route holding those nodes d positions earlier |
| CoreLocalShifting.ShiftedRangeExact | core/localShifting.go:155-201 | a range of r walked from the true clock of a route that holds those nodes at lo..hi passes exactly when that route is served on lo+1..hi, and ends on its true clock and load |
| CoreLocalShifting.TailWalkExact | core/localShifting.go:220-222 | the final isFeasibleRange, run on the old route from the relocated route's clock at a, passes exactly when the relocated route is served after a |
| CoreLocalShifting.TailCodeMeans | core/localShifting.go:163-224 | the shared end of isFeasible accepts exactly when the relocated route serves every position after tail and is not later than the old one at tail+1 |
| CoreLocalShifting.ForwardCloseMeans | core/localShifting.go:159-175 | the close of the forward branch accepts exactly when the relocated route serves newPos and on, and is not later than the old one at newPos and newPos+1 |
| CoreLocalShifting.ForwardMidMeans | core/localShifting.go:155-175 | the middle of the forward branch, from the relocated route's true clock at pos, accepts exactly when that route is served from pos+1 on and not later at newPos |
| CoreLocalShifting.ForwardWalks | core/localShifting.go:135-175 | the forward branch without its precedence test accepts exactly when the relocated route serves every position from pos on and is not later than the old one at newPos |
| CoreLocalShifting.BackwardCloseMeans | core/localShifting.go:201-217 | the close of the backward branch accepts exactly when the relocated route serves newPos+1 and on and is not later at pos and pos+1 |
| CoreLocalShifting.BackwardSwapMeans | core/localShifting.go:197-217 | from the relocated route's clock at newPos, the edge out of the moved node and the rest of the backward branch accept exactly when that route is served after newPos and not later at pos |
| CoreLocalShifting.BackwardWalks | core/localShifting.go:177-217 | the backward branch without its precedence test accepts exactly when the relocated route serves every position from newPos on and is not later than the old one at pos |
| CoreLocalShifting.ShiftForwardMeans | core/localShifting.go:135-224 | for pos < newPos, isFeasible's walk accepts exactly when the relocated route is served from pos on and not later than the old one at newPos |
| CoreLocalShifting.ShiftBackwardMeans | core/localShifting.go:177-224 | for newPos < pos, isFeasible's walk accepts exactly when the relocated route is served from newPos on and not later than the old one at pos |
| CoreLocalShifting.ShiftCodeMeans | core/localShifting.go:130-225 | with exact caches, isFeasible returns 0 exactly when the precedence test passes, the relocated route serves every position from the first moved one on, and it is not later than the old route at the last moved position |
| CoreLocalShifting.PrecedenceKeepsOrder | core/localShifting.go:133-187 | the precedence test refuses exactly the moves that carry the node across its partner's position, so an accepted move keeps the pair's order |
| CoreLocalShifting.ServedPrefix | core/localShifting.go:227-246 | a position before every moved one is served on the relocated route exactly when it was on the old one |
| CoreLocalShifting.NotLaterSpan | core/localShifting.go:163-175 | a route that agrees with the old one after hi and is not later at hi does not end later |
| CoreLocalShifting.ServedKept | core/localShifting.go:227-246 | a relocated route that agrees with a served route before lo and is served from lo on is served everywhere |
| CoreLocalShifting.AcceptedShiftNoWorse | core/localShifting.go:18-34 | a relocation isFeasible accepts on exact caches keeps the nodes, does not make the route end later, and keeps every due date and the capacity when they held |
| CoreLocalShifting.ShiftedTimes | core/localShifting.go:85-117 | the clock cache after updateGlobals(from) keeps its length: positions up to from-1 are kept and later ones restart from the cached clock at from-1 |
| CoreLocalShifting.ClockRedoneStep | core/localShifting.go:91-102 | one round of the updateGlobals loop extends the redone part of the clock cache by one position |
| CoreLocalShifting.ClockRedoneFull | core/localShifting.go:85-117 | once the loop has run to the end, the clock cache is the restarted recurrence |
| CoreLocalShifting.LoadsRedoneStep | core/localShifting.go:114-116 | one round of the updateGlobals loop extends the redone part of the load cache by one position, adding the next node's demand |
| CoreLocalShifting.ShiftedTimesExact | core/localShifting.go:85-117 | restarting a clock cache that holds the true clock at every position (position 0 included, as the seeded cache does for any start time) at from-1, on a route that agrees with the old one before from, gives that route's true clock |
| CoreLocalShifting.ShiftedTimesFollow | core/localShifting.go:85-117 | for from >= 2 and a clock cache that matched calcGlobals, updateGlobals leaves the cache calcGlobals computes for the new route, whatever the start time |
| CoreLocalShifting.ShiftedLoadsExact | core/localShifting.go:85-117 | restarting the load cache at from-1 on a route that agrees with the old one before from gives that route's true load |
| CoreLocalShifting.ShiftKeeps | core/localShifting.go:227-246 | for any start time: an accepted relocation followed by updateGlobals from the first moved position, on caches that hold the true clock and load at every position, keeps the nodes, the start node, such caches, a MakeSpan from the start time no later than at the start, and every position from 1 on served when it was at the start |
| CoreLocalShifting.RedoRound | core/localShifting.go:91-117 | one round of the updateGlobals loop on the arrays advances every part of the loop's state by one position |
| CoreLocalShifting.RedoCaches | core/localShifting.go:85-117 | the loop leaves the clock cache restarted from from-1, the load cache redone and the precedence map after the writes of each round |
| CoreLocalShifting.LocalShifting.constructor | core/localShifting.go:11-16 | a localshifting holds the objective and starts with empty caches |
| CoreLocalShifting.LocalShifting.Process | core/localShifting.go:18-34 | with the clock cache seeded with the start time (see Findings): the route keeps its nodes and start node, never ends later counted from the start time, and a route serving every position from 1 on by its due date and within capacity still does, whatever the start time |
| CoreLocalShifting.LocalShifting.CalcGlobals | core/localShifting.go:36-83 | the clock cache has numNodes entries and follows the route, the load map follows the route, and the precedence map pairs the positions of each pickup and its delivery |
| CoreLocalShifting.LocalShifting.SeedStart | core/localShifting.go:39-57 | writes the start time at position 0 of the clock cache; a cache that matched calcGlobals then holds the true clock at every position, whatever the start time |
| CoreLocalShifting.LocalShifting.IsFeasible | core/localShifting.go:130-225 | the code is 0, -1 or -2 as the precedence test, the window and capacity walks and the two clock comparisons decide, in the source's order |
| CoreLocalShifting.LocalShifting.FeasibleForward | core/localShifting.go:135-176 | the forward branch's code, from the cached clock and load at pos-1 |
| CoreLocalShifting.LocalShifting.FeasibleBackward | core/localShifting.go:177-218 | the backward branch's code, from the cached clock and load at newPos-1 |
| CoreLocalShifting.LocalShifting.Shift | core/localShifting.go:227-246 | the route becomes the old one with the node at pos moved to newPos and the others shifted one place; the caches are redone so what process tracks still holds |
| CoreLocalShifting.LocalShifting.UpdateGlobals | core/localShifting.go:85-128 | the clock cache restarts at from-1, the load cache is redone with the demand of each next node, and the precedence map takes the writes of each round and the closing pair |
| CoreObjective.NewObjective | core/objective.go:16-27 | "time" with the asymmetric flag selects totalTimeA, "time" alone totalTime, and every other name (span included) spanTime |
| CoreObjective.Get | core/objective.go:29-109 | the loop over the route's edges returns the objective's cost: the wait-then-travel clock from 0 for spanTime, the summed edge lengths for the total-time objectives |
| CoreObjective.IsProfitable | core/objective.go:40-130 | the loop returns the objective's test: the simulated clock at j+1 below spans[0] for spanTime, e1+e2 > e3+e4 (with n4 = node 0 at the route's end) for the total-time objectives |
| CoreObjective.AsymmetricIsSymmetric | core/objective.go:103-130 | totalTimeA computes exactly what totalTime computes, both the cost and the test |
| CoreObjective.SpanGetMonotone | core/objective.go:29-38 | the span cost only grows with longer edges and later ready times |
| CoreObjective.SpanGetBelowMakeSpan | core/objective.go:29-38 | the span cost, which starts the clock at 0, never exceeds the route's end time from a non-negative start |
| CoreObjective.DistanceIsEdgeSum | core/objective.go:76-82 | the distance up to position k is the sum of the edges before it |
| CoreObjective.EdgeSumSplit | core/objective.go:76-82 | a sum of edges splits at any middle position |
| CoreObjective.EdgeSumSame | core/objective.go:76-82 | the sum of edges depends only on the nodes of the stretch |
| CoreObjective.EdgeSumOutsideReversal | core/objective.go:84-101 | a stretch outside the reversed segment keeps its length |
| CoreObjective.EdgeSumReversed | core/objective.go:84-101 | on a symmetric matrix a reversed stretch is as long as the mirrored stretch of the original |
| CoreObjective.TotalDistAround | core/objective.go:84-101 | the total distance is the part before i, the edge i to i+1, the segment and the edge j to j+1 with the rest |
| CoreObjective.TotalProfitableIffShorter | core/objective.go:84-101 | on a symmetric matrix, with j+1 inside the route, totalTime finds the move profitable exactly when reversing route[i+1..j] shortens the route |
| CoreObjective.ReversedFits | core/local2Opt.go:55-71 | reversing a segment keeps the route inside the matrix |
| CoreObjective.BackWalkMirrors | core/objective.go:53-62 | the backward loop over the segment follows the clock of a route holding the segment reversed |
| CoreObjective.BackWalkFollowsReversal | core/objective.go:53-62 | the backward loop over route[i+1..k] follows the clock of the route with route[i+1..j] reversed |
| CoreObjective.SpanProfitIsReversedClock | core/objective.go:40-74 | started from the clock at i, the clock spanTime.isProfitable simulates is the clock at j+1 of the route with route[i+1..j] reversed |
| CoreObjective.SpanProfitableIffEarlier | core/objective.go:40-74 | with spans = (clock at j+1, clock at i), spanTime finds the move profitable exactly when the reversed route reaches j+1 strictly earlier |
| CoreSearch.GetLocalSearch | core/localSearch.go:12-28 | VND selects vnd, Shifting selects localshifting and anything else local2Opt, each carrying the given objective |
| CoreSearch.RunSearch | core/localSearch.go:8-10 | the chosen search keeps the route's nodes and start node; 2-opt with an exact objective test does not raise the cost, and shifting does not make the route end later, counted from the start time |
| CoreSearch.VndProcess | core/vnd.go:9-24 | shift, then 2-opt, on the very solution x; x2 aliases x so the comparison is never true and the body runs exactly once; the nodes are kept |
| CoreSearch.Advance | core/vns.go:40-51 | a strict improvement restarts at level 1; otherwise the level goes up once iterLevel has passed iterMax; then iterLevel grows by one |
| CoreSearch.AdvanceInRange | core/vns.go:34-52 | after any round the level stays within [1, levelMax] and iterLevel within [1, max(iterMax, 0)+1] |
| CoreSearch.Stalls | core/vns.go:34-52 | the number of non-improving rounds that can still follow is at least one |
| CoreSearch.AdvanceStalls | core/vns.go:34-52 | a non-improving round either reaches levelMax or uses up one stall, so without improvements the loop ends |
| CoreSearch.NewVns | core/vns.go:8-15 | NewVNS holds the configured local search with the objective and both bounds |
| CoreSearch.NewGvns | core/gvns.go:8-14 | NewGVNS holds both bounds, the objective and a 2-opt search with that objective |
| CoreSearch.VnsProcess | core/vns.go:25-55 | the result is fresh, over the same instance and nodes as x, and its cost is no higher than after the first search; x is not changed |
| CoreSearch.Rounds | core/vns.go:34-52 | each round disturbs the best at the current level, searches the copy and adopts it only on a strictly lower cost, so the cost never rises and the nodes are kept |
| CoreSearch.Round | core/vns.go:36-40 | the disturbed copy is fresh, keeps the nodes and stays searchable; it counts as improved exactly when its cost after the search is strictly below the best's |
| CoreSearch.GvnsProcess | core/gvns.go:24-49 | x is searched in place first; the result is x or a fresh strictly better solution with the same nodes and a cost no higher than x's after that search |
| GvnsTsp.Preprocess | gvns/tsp.go:67-81 | arcs has one row per node holding every other node; arcs[i][j] is true exactly when readytime[i] plus the edge i to j is within j's due date; no node has an arc to itself; the rest of the instance is unchanged |
| GvnsSolution.PenaltyUpToZeroIff | gvns/solution.go:72-89 | the penalty of positions 1..k-1 is never negative and is 0 exactly when each of them is reached by its due date |
| GvnsSolution.PenaltyZeroIffFeasible | gvns/solution.go:54-89 | Penalty is never negative and is 0 exactly when IsFeasible holds |
| GvnsSolution.PositionsSpec | gvns/solution.go:91-111 | a calcSets list holds exactly the positions of [1, k) with the asked verdict, in increasing order |
| GvnsSolution.CalcSetsPartition | gvns/solution.go:91-111 | calcSets puts every inner position 1..len-2 in exactly one of its two lists, the on-time ones in feasible, both increasing |
| GvnsSolution.Solution.constructor | gvns/solution.go:20-28 | NewSolution keeps the instance and the route and marks the slice indices 0..len-1 (not the nodes) as visited |
| GvnsSolution.Solution.IsFeasible | gvns/solution.go:54-70 | true exactly when every position after the start is reached, travelling then waiting from time 0, by its due date |
| GvnsSolution.Solution.Penalty | gvns/solution.go:72-89 | the summed lateness of positions 1..len-1; it is never negative and is 0 exactly when the route is feasible |
| GvnsSolution.Solution.CalcSets | gvns/solution.go:91-111 | the on-time and the late positions among 1..len-2, each in increasing order |
| GvnsSolution.Solution.Exchange | gvns/solution.go:113-125 | the route becomes its old contents with the node at p relocated to paux |
| GvnsSolution.Solution.AddNode | gvns/solution.go:134-137 | the node is appended and marked visited |
| GvnsSolution.Solution.RemoveNode | gvns/solution.go:139-142 | the last entry is dropped whatever the argument, and the argument is marked unvisited |
| GvnsSolution.Solution.TotalDistance | gvns/solution.go:152-158 | the sum of the edge lengths along the route |
| GvnsGreedy.Step | gvns/greedy.go:21-34 | one pass appends the unvisited node nearest to the node at position i, extending the nearest-neighbour tour by one |
| GvnsGreedy.Finish | gvns/greedy.go:35-36 | the closing 0 is appended; the route is the nearest-neighbour tour, and with every distance below MaxInt64 it holds numNodes distinct nodes before the final 0 |
| GvnsGreedy.Greedy | gvns/greedy.go:19-37 | the route starts at 0, follows the nearest unvisited node numNodes-1 times and returns to 0; with every distance below MaxInt64 it visits each node once |
| GvnsLocal2Opt.ReversedView | gvns/local2opt.go:82-95 | position by position: the prefix up to i and the suffix after j stay, and position q of the segment holds route[i+1+j-q] |
| GvnsLocal2Opt.ClockPrefix | gvns/local2opt.go:205-219 | routes that agree up to position k share the clock there |
| GvnsLocal2Opt.ClockAgrees | gvns/local2opt.go:124-136 | routes that agree from k0 on and share the clock at k0 share it at every later position |
| GvnsLocal2Opt.MoveKeepsWindows | gvns/local2opt.go:140-203 | a reversal whose positions from i+1 on are reached in time, on a route reached in time, is reached in time everywhere |
| GvnsLocal2Opt.ReachedIffFeasible | gvns/solution.go:54-70 | when the depot is ready at time 0 and every ready time is within its due date, 2-opt's wait-then-travel test agrees with IsFeasible's travel-then-wait test |
| GvnsLocal2Opt.Local2Opt.constructor | gvns/local2opt.go:7-9 | the local search holds the given cache |
| GvnsLocal2Opt.Local2Opt.CalcInc | gvns/local2opt.go:205-219 | inc[k] becomes the clock on reaching position k+1 from time 0, for each of the first numNodes-1 edges |
| GvnsLocal2Opt.Local2Opt.Exchange | gvns/local2opt.go:82-137 | the route becomes route[iaux+1..jaux] reversed and the cache again holds the clock of the new route, the early stop of the tail loop included |
| GvnsLocal2Opt.Local2Opt.RedoSegment | gvns/local2opt.go:113-122 | the first cache loop writes the clock of positions lo+1..hi and touches nothing else |
| GvnsLocal2Opt.Local2Opt.RedoTail | gvns/local2opt.go:124-136 | the tail loop restores the cache to the clock of the new route, stopping once a value is already right |
| GvnsLocal2Opt.Local2Opt.IsFeasible | gvns/local2opt.go:140-203 | -1, -2 and -3 exactly when the first edge, the segment or the edge after it misses a due date on the reversed route; -4 only when a tail position does; 0 whenever every position after iaux is reached in time, and 0 vouches for that when the old tail was in time |
| GvnsLocal2Opt.Local2Opt.AfterFirst | gvns/local2opt.go:156-202 | once the first edge is in time: -2 exactly when the segment of the reversed route misses a due date, -3 exactly when the edge after it does, -4 only when a tail position does, 0 whenever every later position is reached in time |
| GvnsLocal2Opt.Local2Opt.TailCode | gvns/local2opt.go:171-202 | with the segment in time: -3 exactly when position jaux+1 of the reversed route is late, -4 only when a later tail position is, 0 whenever every position after iaux is reached in time, and 0 vouches for that when the old tail was in time |
| GvnsLocal2Opt.Local2Opt.ScanSegment | gvns/local2opt.go:157-169 | the segment loop passes exactly when the reversed route reaches positions iaux+1..jaux in time, and ends on the clock at jaux |
| GvnsLocal2Opt.Local2Opt.ScanTail | gvns/local2opt.go:185-200 | the tail loop fails only when a tail position of the reversed route is late, and its early stop is sound when the old tail was in time |
| GvnsLocal2Opt.Local2Opt.Process | gvns/local2opt.go:11-78 | the route keeps its nodes and start node, the cache follows it, and a route reached in time over its first numNodes positions still is |
| GvnsLocal2Opt.Local2Opt.TakeMove | gvns/local2opt.go:57-60 | an accepted reversal applied by exchange: the route keeps its nodes, the cache follows it, and every window the route met before the search is still met |
| GvnsLocal2Opt.Local2Opt.TryFrom | gvns/local2opt.go:34-66 | the inner loop for one pick keeps the nodes and the windows, and without an improvement leaves the route as it was |
| GvnsSearch.Build | gvns/gvns.go:13-19 | a fresh solution holding exactly the built route |
| GvnsSearch.FirstShortestSnoc | gvns/gvns.go:25-27 | appending a strictly shorter route makes it the first shortest; appending one that is not shorter keeps the earlier first shortest |
| GvnsSearch.BuildAndSearch | gvns/gvns.go:19-23 | one round: a fresh solution over the built route, searched by 2-opt with a cache of len(matrix) entries, keeps the nodes and the windows it met |
| GvnsSearch.KeepShorter | gvns/gvns.go:19-27 | one iteration: the searched route is appended to the rounds, each round keeps its nodes and windows, and the best is replaced only by a strictly shorter route, so it stays the first shortest |
| GvnsSearch.Gvns | gvns/gvns.go:4-31 | after preprocess, exactly max(iterationMax, 0) rounds run; the result is the first of the shortest routes found, every round kept its nodes and windows, and only the arcs of the instance change |
| PdptwSolution.SetUpToSpec | pdptw/solution.go:107-152 | the positions getSet collects are exactly the positions of [1, k) that pass its test as written, in increasing order |
| PdptwSolution.DeliveriesFlagged | pdptw/solution.go:124-142 | a position whose node has a pred entry other than 0 is always collected, since -pred is never a node of the route |
| PdptwSolution.FeasibleSetIsPredOnly | pdptw/solution.go:107-152 | on a route IsFeasible accepts, a position is collected exactly when its node has a pred entry whose negation does not occur from that position on |
| PdptwSolution.Solution.constructor | pdptw/solution.go:28-36 | NewSolution keeps the instance and the route and marks the slice indices 0..len-1 (not the nodes) as visited |
| PdptwSolution.Solution.ValueCopy | pdptw/solution.go:228 | the value receiver of disturb shares the route slice, the node map and the instance |
| PdptwSolution.Solution.IsFeasible | pdptw/solution.go:60-105 | true exactly when every position 1..numNodes-1 keeps the load (the demands before it) within capacity, finds its precedence node at some position 1..i, and meets its due date unless that is 0 |
| PdptwSolution.Solution.IsFeasiblePrecendence | pdptw/solution.go:265-300 | true exactly when only the precedence test passes at every position; it holds whenever IsFeasible does |
| PdptwSolution.Solution.IsFeasibleLog | pdptw/solution.go:302-347 | the same verdict as IsFeasible |
| PdptwSolution.Solution.GetSet | pdptw/solution.go:107-152 | the same list whichever set type is asked: the positions of [1, len) whose pred test fails, whose nonzero due date is missed or whose load exceeds capacity |
| PdptwSolution.Solution.Inspect | pdptw/solution.go:114-142 | after one round the clock is the arrival at position i and the load is the demand of positions 0..i-1; position i is listed exactly when its pred test fails, it is late or the load exceeds the capacity |
| PdptwSolution.Solution.Exchange | pdptw/solution.go:154-167 | the route becomes its old contents with the node at pos relocated to newPos |
| PdptwSolution.Solution.Change | pdptw/solution.go:169-171 | the route becomes its old contents with positions i and j swapped |
| PdptwSolution.Solution.AddNode | pdptw/solution.go:180-183 | the node is appended and marked visited |
| PdptwSolution.Solution.RemoveNode | pdptw/solution.go:185-188 | the last entry is dropped whatever the argument, and the argument is marked unvisited |
| PdptwSolution.Solution.TotalDistance | pdptw/solution.go:198-204 | the sum of the edge lengths along the route |
| PdptwSolution.Solution.MakeSpan | pdptw/solution.go:206-215 | the wait-then-travel clock from time 0 at the end of the route |
| PdptwSolution.Solution.Copy | pdptw/solution.go:217-226 | a fresh solution over the same instance holding the first numNodes entries, and a nil nodes map (no visited marks; reads as empty) |
| PdptwSolution.Solution.KExchange | pdptw/solution.go:239-261 | iaux > jaux returns the receiver; otherwise a fresh copy with route[iaux+1..jaux] reversed is returned exactly when IsFeasible accepts it, else the receiver; the nodes are kept |
| PdptwSolution.Solution.Disturb | pdptw/solution.go:228-237 | level <= 0 returns nil; otherwise only the last draw counts: the result shares the receiver's route, or is a fresh feasible reversal of route[n1+1..n2] with n1+2 <= n2, and keeps the nodes |
| PdptwLocal2Opt.FromStart | pdptw/local2opt.go:381-423 | the instance as the pdptw scans read it: the clock and the load start at 0, everything else is kept |
| PdptwLocal2Opt.TimesOnly | pdptw/local2opt.go:618-682 | the instance isTWfeasible reads: no demands and no capacity, the times kept |
| PdptwLocal2Opt.PredOf | pdptw/local2opt.go:381-423 | the precedence cache of calcGlobals has an entry for every position, each a position or -1 |
| PdptwLocal2Opt.IncFollowsUnique | pdptw/local2opt.go:381-423 | a route has exactly one clock cache |
| PdptwLocal2Opt.IncEndsAtSpan | pdptw/solution.go:206-215 | the last entry of the clock cache is MakeSpan of the route |
| PdptwLocal2Opt.IncUpToStep | pdptw/local2opt.go:391-417 | one round of the calcGlobals loop writes the next clock and leaves the rest |
| PdptwLocal2Opt.PredsUpToSpec | pdptw/local2opt.go:391-417 | the pairings written for positions 0..k-1 are exactly those entries of the final cache |
| PdptwLocal2Opt.PredsUpToClose | pdptw/local2opt.go:420 | the closing write for the last position completes the precedence cache |
| PdptwLocal2Opt.Visit | pdptw/local2opt.go:392-418 | one pass of the loop: the clock steps on to the next position, the partner position is the first index of the absolute pred entry, and the load adds the demand of the node |
| PdptwLocal2Opt.CalcGlobals | pdptw/local2opt.go:381-423 | the clock cache, the precedence pairing and the load cache all follow the route, from time 0 and load 0 |
| PdptwLocal2Opt.CalcGlobalTsp | pdptw/local2opt.go:855-875 | a fresh clock cache as long as the route that follows it |
| PdptwLocal2Opt.IncUpdated | pdptw/local2opt.go:242-273 | the clock cache after exchangeGlobalUpdate keeps its length: entries before iaux are kept and later ones restart from inc[iaux-1] |
| PdptwLocal2Opt.IncUpdatedFollows | pdptw/local2opt.go:242-273 | the clock update is exact: a cache that followed the route follows the route with route[iaux+1..jaux] reversed |
| PdptwLocal2Opt.IncRedoneNone | pdptw/local2opt.go:242 | before either loop the redone part of the cache is empty |
| PdptwLocal2Opt.IncRedoneFull | pdptw/local2opt.go:246-273 | once both loops ran to the end the cache is the restarted recurrence |
| PdptwLocal2Opt.SwapSegment | pdptw/local2opt.go:213-236 | the median loop reverses route[start..end] and applies the four precedence writes of each swapped pair |
| PdptwLocal2Opt.RedoInc | pdptw/local2opt.go:246-273 | one clock loop carries the clock over its positions and extends the redone part of the cache |
| PdptwLocal2Opt.RedoTail | pdptw/local2opt.go:240-273 | the two clock loops together make the cache the restarted recurrence on the new route |
| PdptwLocal2Opt.ExchangeGlobalUpdate | pdptw/local2opt.go:197-276 | iaux > jaux returns nil caches and changes nothing; otherwise the route becomes route[iaux+1..jaux] reversed, the precedence map takes the swap writes and the clock cache is redone from iaux |
| PdptwLocal2Opt.ReverseRoute | pdptw/local2opt.go:204-236 | the route becomes route[start..end] reversed and is still a route of the instance; the precedence map is the one the median loop's swaps leave |
| PdptwLocal2Opt.IsFeasible | pdptw/local2opt.go:279-379 | the verdict is the 2-opt test started from inc[i] and capacity[i], as written |
| PdptwLocal2Opt.IsFeasibleAtClock | pdptw/local2opt.go:279-379 | started from inc[i-1] the test is exact on caches that follow the route: it accepts exactly when the reversed route meets every later due date and the capacity and no cached pair lies inside the segment |
| PdptwLocal2Opt.IsTwFeasible | pdptw/local2opt.go:618-682 | the time tests of isFeasible alone: isFeasible's test on the instance without demands |
| PdptwLocal2Opt.LoadWithoutDemands | pdptw/local2opt.go:618-682 | with no demands the load never moves from its start |
| PdptwLocal2Opt.TimesOnlyIffDueDates | pdptw/local2opt.go:618-682 | from the true clock at i, isTWfeasible accepts exactly when the reversed route reaches every position after i by its due date |
| PdptwLocal2Opt.CalcProfit | pdptw/local2opt.go:601-615 | on a symmetric matrix the profit is exactly the change of total distance that reversing route[i+1..j] makes |
| PdptwLocal2Opt.ProfitIsLengthChange | pdptw/local2opt.go:601-615 | the two added edges minus the two removed ones equal the change of total distance on a symmetric matrix |
| PdptwLocal2Opt.Contains | pdptw/local2opt.go:814-821 | true exactly when x occurs in a |
| PdptwLocal2Opt.ClockExampleCaches | pdptw/local2opt.go:381-423 | the caches calcGlobals computes on the example route |
| PdptwLocal2Opt.StartClockRejectsMove | pdptw/local2opt.go:283 | on an example with exact caches the move (1, 3) is profitable and the reversed route meets every due date, yet the test from inc[1] rejects it while the test from inc[0] accepts it |
| PdptwLocal2Opt.SwappedPairsDrift | pdptw/local2opt.go:227-235 | called directly on a pair at positions 2 and 3 with the move (1, 3), the updated precedence cache pairs position 2 with itself, while calcGlobals on the new route pairs it with position 3 |
| PdptwLocal2Opt.PairInsideRejected | pdptw/local2opt.go:320-322 | a move whose segment holds both ends of a cached pair is rejected by isFeasible from any clock and load, so cons2Opt never applies the update of SwappedPairsDrift |
| PdptwLocal2Opt.OriginEntryDrifts | pdptw/local2opt.go:227-235 | after the move cons2Opt takes on the example, the updated cache gives position 0 the partner 2, while calcGlobals on the new route gives it 0 |
| PdptwLocal2Opt.StaleExampleCaches | pdptw/local2opt.go:381-423 | calcGlobals on the example route: its clock cache, position 2 paired with position 4, the unpaired position 3 with 0, and the load cache |
| PdptwLocal2Opt.StaleMoveTaken | pdptw/local2opt.go:146-166 | with those caches the move (1, 3) is profitable and passes isFeasible as written, started from inc[1], so cons2Opt applies it |
| PdptwLocal2Opt.SwapOfPair | pdptw/local2opt.go:227-235 | the median loop over positions 2..3 turns a pairing of 2 with 3 into a pairing of each with itself |
| PdptwLocal2Opt.LoadsGoStale | pdptw/local2opt.go:166 | the load cache follows the example route and the move cons2Opt takes passes the test as written, yet after the move the cache no longer follows the new route, and nothing updates it |
| PdptwLocal2Opt.ApplyMove | pdptw/local2opt.go:164-180 | an accepted move reverses route[i+1..j], redoes the clock cache and rebuilds the precedence and load caches, so all three follow the new route and the source's comparison of the clock caches never fails |
| PdptwLocal2Opt.FirstMove | pdptw/local2opt.go:151-183 | j is the first position from i+2 on whose move passes the e1+e2 > e3+e4 test and isFeasible; no earlier one does |
| PdptwLocal2Opt.TestMove | pdptw/local2opt.go:152-165 | a move is taken exactly when it passes the e1+e2 > e3+e4 test and isFeasible from the true clock |
| PdptwLocal2Opt.GoodMoveKeeps | pdptw/local2opt.go:164-180 | a move cons2Opt takes keeps the nodes, the start node and every window the route met |
| PdptwLocal2Opt.TakeMove | pdptw/local2opt.go:164-180 | the accepted move is applied with the caches recomputed; the route keeps its nodes and every window and capacity bound it met |
| PdptwLocal2Opt.ConsLocal2Opt | pdptw/local2opt.go:123-195 | the route keeps its nodes and start node, and a route meeting every due date and the capacity still does |
| PdptwLocal2Opt.ConsStep | pdptw/local2opt.go:141-192 | the caches keep following the route, which keeps its nodes and every window it met; candidates stay within 1..numNodes-2; a failed pick drops one live candidate and a taken move spends one unit of budget |
| PdptwLocal2Opt.ReversedCopy | pdptw/local2opt.go:53-66 | a fresh copy of the first numNodes positions with route[start..end] reversed, over the same nodes |
| PdptwLocal2Opt.Exchange | pdptw/local2opt.go:520-548 | iaux > jaux returns s; otherwise the reversed copy is returned exactly when it is feasible and finishes strictly earlier, else s |
| PdptwLocal2Opt.ExchangeDisturb | pdptw/local2opt.go:550-576 | iaux > jaux returns s; otherwise the reversed copy is returned exactly when it is feasible, else s |
| PdptwLocal2Opt.Disturb | pdptw/local2opt.go:578-599 | level draws of n1 in 1..len, each trying exchange(s, n1, i) for later i until one improves; the result is s or a fresh feasible solution over the same nodes that finishes strictly earlier |
| PdptwLocal2Opt.TryFrom | pdptw/local2opt.go:485-504 | the first profitable move from i that exchange accepts is taken; no earlier one is both profitable and improving |
| PdptwLocal2Opt.TryPair | pdptw/local2opt.go:486-503 | the move (i, j) yields its reversed copy exactly when it passes the e1+e2 > e3+e4 test and exchange accepts it, and that copy is feasible and finishes strictly earlier; otherwise the result is s |
| PdptwLocal2Opt.Local2OptSearch | pdptw/local2opt.go:459-516 | the result is s or a fresh feasible solution over the same nodes that finishes strictly earlier |
| PdptwLocal2Opt.SearchFrom | pdptw/local2opt.go:477-504 | an improvement from the drawn position is a fresh feasible solution over the nodes of s that finishes strictly earlier than s; otherwise the solution found so far stays |
| PdptwLocal2Opt.Local2OptProcess | pdptw/local2opt.go:429-457 | the result is x or a fresh feasible solution over the same nodes that finishes strictly earlier |
| PdptwLocal2Opt.DisturbRound | pdptw/local2opt.go:439-443 | the disturbed solution keeps the nodes; it counts as improved exactly when it finishes strictly earlier than the best, and then it is fresh and feasible |
| PdptwLocal2Opt.ConsProcess | pdptw/local2opt.go:93-121 | the result is x, searched in place, or a fresh solution over the same nodes |
| PdptwLocal2Opt.ConsRound | pdptw/local2opt.go:103-107 | the disturbed solution is the best itself, searched in place, or a fresh one over the same nodes that leaves the best's route alone; it counts as improved exactly when it finishes strictly earlier |
| PdptwLocal2Opt.NewOptimization | pdptw/local2opt.go:74-85 | "2opt" selects Local2Opt and every other name cons2Opt, each with a clock slice of numNodes zeros |
| PdptwLocal2Opt.Process | pdptw/local2opt.go:13-15 | the selected search keeps the nodes; Local2Opt leaves x unchanged and never makes the best solution finish later |
| PdptwLocal2Opt.ClearExchange | pdptw/local2opt.go:832-853 | false exactly when iaux > jaux; route[iaux+1..jaux] of the solution itself reversed with no feasibility test, the nodes and every other position kept |
| PdptwGenerate.Others | pdptw/generate.go:13-18 | the nodes 0..n-1 other than the start, each once |
| PdptwGenerate.OthersOnce | pdptw/generate.go:13-18 | no node of the list repeats |
| PdptwGenerate.StartThenOthers | pdptw/generate.go:12-28 | the start node followed by a reordering of the others holds each node 0..n-1 exactly once |
| PdptwGenerate.TailMultiset | pdptw/generate.go:20-23 | a shuffle that keeps position 0 keeps the nodes after it |
| PdptwGenerate.Shuffle | pdptw/generate.go:20-23 | swapping each position i >= 1 with a random j in 1..i keeps the nodes and position 0 |
| PdptwGenerate.GetRandom | pdptw/generate.go:12-28 | the start node followed by a random order of every other node, each node once |
| PdptwGenerate.CollectOthers | pdptw/generate.go:14-18 | every node of 0..numNodes-1 but the start node, in increasing order (sortByDuedate and sortByTW repeat the loop) |
| PdptwGenerate.StartThen | pdptw/generate.go:46 | a solution over the start node followed by the given order of the other nodes |
| PdptwGenerate.SortByDueDate | pdptw/generate.go:32-49 | the start node followed by the other nodes, each once, in non-decreasing order of due date |
| PdptwGenerate.MidWindowInside | pdptw/generate.go:61 | the sort key duedate - (duedate - readytime)/2 lies inside the window and within half of it from the due date |
| PdptwGenerate.CollectMedians | pdptw/generate.go:56-63 | the first loop lists the other nodes and records each one's window middle |
| PdptwGenerate.SortedByMiddle | pdptw/generate.go:65-68 | a route sorted by the recorded key is sorted by window middle |
| PdptwGenerate.OrderByMiddle | pdptw/generate.go:53-68 | the other nodes, each once, in non-decreasing order of window middle |
| PdptwGenerate.SortByTW | pdptw/generate.go:53-73 | the start node followed by the other nodes, each once, in non-decreasing order of window middle |
| PdptwGenerate.Step | pdptw/generate.go:80-93 | one pass appends the unvisited node nearest to the node at position i |
| PdptwGenerate.Finish | pdptw/generate.go:94-95 | the closing 0 is appended; with every distance below MaxInt64 the tour holds numNodes distinct nodes before it |
| PdptwGenerate.Greedy | pdptw/generate.go:78-96 | the nearest-neighbour tour from node 0 (not the start node) back to 0, each node once when every distance is below MaxInt64 |
| PdptwGenerate.Deliveries | pdptw/generate.go:104-111 | the nodes with a precedence entry, in increasing order |
| PdptwGenerate.Pickups | pdptw/generate.go:104-111 | the precedence entry of each of those nodes, in the same order |
| PdptwGenerate.CollectTasks | pdptw/generate.go:99-111 | the loop yields node 0 with the pickups, and the deliveries |
| PdptwGenerate.GetRandomPD | pdptw/generate.go:98-134 | node 0, then the pickups in a random order, then the deliveries in a random order, the other nodes left out |
| PdptwGenerate.InSlice | pdptw/generate.go:119-127 | an entry of a slice sits at one of its positions |
| PdptwGenerate.PartnerBefore | pdptw/generate.go:129 | on node 0, the pickups and then the deliveries, every delivery finds its pickup before it |
| PdptwGenerate.DeliveriesSeePickups | pdptw/generate.go:98-134 | on a GetRandomPD route every delivery passes IsFeasible's precedence test |
| PdptwConstruction.NewCons | pdptw/construction.go:28-41 | "greedy" selects the nearest-neighbour strategy and every other name the random one; levelMax is kept |
| PdptwConstruction.ShiftNode | pdptw/construction.go:116-161 | one pick: moves of the node one step further at a time, each undone unless the penalty drops; an improvement says the new penalty, otherwise the route is back as it was |
| PdptwConstruction.Shifting | pdptw/construction.go:107-181 | the nodes are kept and the returned penalty is the route's, never above the old one, strictly below it when an improvement is reported |
| PdptwConstruction.LocalSearch | pdptw/construction.go:83-105 | the four shifting passes keep the nodes and never raise the penalty |
| PdptwConstruction.Disturb | pdptw/construction.go:184-198 | a new solution over the same route slice; level+1 relocations from the feasible to the unfeasible list happen exactly when both lists are non-empty, the nodes kept |
| PdptwConstruction.GetSolution | pdptw/construction.go:18-20 | a fresh solution of the strategy's length; the random strategy's holds each node once |
| PdptwConstruction.Process | pdptw/construction.go:43-81 | a fresh solution of the strategy's length with each node once for the random strategy, feasible whenever the loop ends on its own |
| PdptwConstruction.ZeroConstruction | pdptw/vns.go:12 | the zero Construction has levelMax 0 and a nil strategy that can build nothing |
| PdptwConstruction.ProcessOrPanic | pdptw/construction.go:43-47 | nil exactly when the strategy is nil (the source dereferences it and panics); otherwise what Process returns |
| PdptwVns.FirstShortestSnoc | pdptw/vns.go:35-38 | appending a route of strictly smaller makespan makes it the first shortest; one not smaller keeps the earlier one |
| PdptwVns.PreprocessInstance | pdptw/pdptw.go:124-139 | for i != j the arc from i to j exists exactly when readytime[i] plus the edge i to j is within j's due date, no diagonal arc exists, and the rest of the instance is unchanged |
| PdptwVns.Round | pdptw/vns.go:21-33 | one round repairs a random construction and runs Local2Opt on it; the route keeps each node once and stays feasible when the repair finished |
| PdptwVns.Vns | pdptw/vns.go:6-42 | with a random-strategy construction: exactly max(iterationMax, 0) rounds after the first route; the result is the first of smallest makespan, each kept its nodes, and only the arcs of the instance change |
| PdptwVns.VnsAsWritten | pdptw/vns.go:6-15 | with the zero Construction the first process call panics: no solution is returned |
| PdpSolution.Preprocess | pdp/solution.go:190-203 | ok exactly when every precedence entry names a node at or before its delivery (a later row does not exist yet and the write panics); then every row holds every node, and the arc i to j is false exactly when i is j's pickup |
| PdpSolution.FirstFrom | pdp/solution.go:104-109 | the first position from j below numNodes holding v, with v absent before it, or 0 when v is not there |
| PdpSolution.NodePenaltyOf | pdp/solution.go:205-215 | a non-zero NodePenalty is the position, at or after i and below numNodes, of the pickup of the delivery at i |
| PdpSolution.PenaltyZeroIffFeasible | pdp/solution.go:65-114 | a feasible route has penalty 0; a route with penalty 0 whose pickups all lie on it is feasible |
| PdpSolution.FeasibleSetSpec | pdp/solution.go:116-139 | the feasible list of calcSets holds exactly the delivery positions whose pickup comes at or before them, in increasing order |
| PdpSolution.UnfeasibleSetSpec | pdp/solution.go:116-139 | with the append on the unfeasible slice, that list holds exactly the delivery positions whose pickup does not come before them, in increasing order |
| PdpSolution.AsWrittenUnfeasibleSpec | pdp/solution.go:133 | the source's unfeasible list is empty exactly when no delivery is unmet, else the met positions below the last unmet one followed by it, so every earlier unmet position is lost |
| PdpSolution.CalcSetsLosesUnmet | pdp/solution.go:133 | on route 0, 1, 2, 3 with deliveries 1 and 2 both waiting for pickup 3, the source's unfeasible list is [2] and the intended one [1, 2] |
| PdpSolution.SetsInside | pdp/solution.go:119-120 | both calcSets lists hold positions 1..numNodes-2 only |
| PdpSolution.Solution.constructor | pdp/solution.go:22-29 | the solution holds the given route slice and instance, and nodes marks every index of the route (the loop ranges over indices, not nodes) |
| PdpSolution.Solution.Literal | pdp/solution.go:39 | the composite literal of Copy: route and instance set, nodes left nil (reads as empty) |
| PdpSolution.Solution.Copy | pdp/solution.go:32-40 | a fresh solution over a fresh slice holding the first numNodes positions, same instance, and a nil nodes map (reads as empty) |
| PdpSolution.Solution.IsFeasible | pdp/solution.go:65-86 | true exactly when every delivery at positions 1..numNodes-2 has its pickup at a position from 1 up to it |
| PdpSolution.Solution.FirstForward | pdp/solution.go:104-109 | the forward search returns the first position of the value from i on, or 0 |
| PdpSolution.Solution.PenaltyAt | pdp/solution.go:94-110 | the amount one position adds: nothing unless it holds a delivery whose pickup is not among positions 1..i, then the first position from i below numNodes that holds the pickup (0 when there is none) |
| PdpSolution.Solution.Penalty | pdp/solution.go:89-114 | the sum, over the unmet deliveries at positions 1..numNodes-2, of the first position at or after them holding their pickup |
| PdpSolution.Solution.SearchDown | pdp/solution.go:124-129 | true exactly when the value is among positions 0..i |
| PdpSolution.Solution.CalcSets | pdp/solution.go:116-139 | the met and the unmet delivery positions among 1..numNodes-2, each exactly and in increasing order (unmet ones appended to the unfeasible list) |
| PdpSolution.Solution.Exchange | pdp/solution.go:141-153 | the node at p is moved to paux, the nodes between shifted by one, nothing else changed |
| PdpSolution.Solution.AddNode | pdp/solution.go:162-165 | the node appended to the route and marked in nodes |
| PdpSolution.Solution.RemoveNode | pdp/solution.go:167-170 | the route cut to its first numNodes-1 positions and the node unmarked |
| PdpSolution.Solution.TotalDistance | pdp/solution.go:181-187 | the sum of the matrix entries along the first numNodes positions |
| PdpSolution.Solution.NodePenalty | pdp/solution.go:205-215 | the NodePenalty of position i |
| PdpSolution.Solution.Penalties | pdp/solution.go:229-233 | one entry per route index, the NodePenalty of that index |
| PdpSolution.Solution.PenaltySort | pdp/solution.go:228-239 | the route becomes the indices 0..len-1, each once, in non-decreasing order of their NodePenalty on the old route |
| PdpSolution.OrderBy | pdp/solution.go:234 | sort.Sort of the index list: each index once, in non-decreasing order of penalty |
| PdpSolution.Overwrite | pdp/solution.go:235-237 | the route slice is overwritten with the sorted list |
| PdpRandom.Shifted | pdp/random.go:10-12 | every entry raised by the offset |
| PdpRandom.RouteOfEachOnce | pdp/random.go:8-17 | 0, then a permutation of 0..n-3 raised by 2, then 1, holds each of 0..n-1 once |
| PdpRandom.Perm | pdp/random.go:8 | rand.Perm(n): a fresh slice holding each of 0..n-1 once |
| PdpRandom.GetRandom | pdp/random.go:7-22 | a fresh solution of numNodes positions: 0 first, 1 last, each of 2..numNodes-1 once between them |
| PdpRandom.GetWellRandom | pdp/random.go:24-29 | what GetRandom promises |
| PdpConstruction.CalcPool | pdp/construction.go:50-52 | the calcSets lists with their full lengths live, every entry a position 1..numNodes-2 |
| PdpConstruction.Shift | pdp/construction.go:71-84 | one pick keeps the nodes; a kept move says the new, strictly lower penalty, otherwise the route is as before |
| PdpConstruction.Pass | pdp/construction.go:64-101 | one inner loop keeps the nodes and never raises the penalty; stopping means penalty 0, otherwise its list has no live entries left |
| PdpConstruction.Pick | pdp/construction.go:65-99 | a failed pick leaves the route and the penalty, drops the live size of its list by one and leaves the other list's size alone; a kept move keeps the nodes and lowers the penalty, and the lists are recomputed unless the penalty reached 0 |
| PdpConstruction.Local1Shift | pdp/construction.go:47-218 | the route keeps its nodes and its penalty never grows |
| PdpConstruction.Disturb | pdp/construction.go:220-234 | a new solution over the same route slice; level+1 relocations happen exactly when both calcSets lists are non-empty (none otherwise), the nodes kept |
| PdpConstruction.Start | pdp/construction.go:10-17 | the random route, penalty sorted and shifted, holds each of 0..numNodes-1 once |
| PdpConstruction.Process | pdp/construction.go:9-45 | a fresh solution holding each node once, feasible whenever the loop ends on its own |
| PdpLocal2Opt.ImprovesTrans | pdp/local2opt.go:81 | rebinding s to an accepted exchange twice still yields a feasible, strictly shorter route over the same nodes |
| PdpLocal2Opt.Local2Opt.constructor | pdp/local2opt.go:7-9 | the struct holds the given inc slice |
| PdpLocal2Opt.Local2Opt.Exchange | pdp/local2opt.go:102-127 | accepted exactly when the reversed copy is feasible and strictly shorter; then that fresh copy, else s itself |
| PdpLocal2Opt.Local2Opt.Local2OptSearch | pdp/local2opt.go:41-98 | the search ends on s or on a fresh feasible, strictly shorter route over the same nodes |
| PdpLocal2Opt.Local2Opt.TryPosition | pdp/local2opt.go:63-86 | the inner loop keeps the solution or moves to an improvement of it |
| PdpLocal2Opt.Local2Opt.Disturb | pdp/local2opt.go:129-159 | s or a fresh feasible, strictly shorter route over the same nodes |
| PdpLocal2Opt.Local2Opt.Process | pdp/local2opt.go:11-39 | x itself or a fresh feasible, strictly shorter route of numNodes positions over the same nodes |
| PdpVns.FirstShortestSnoc | pdp/vns.go:27-29 | a strictly shorter route becomes the first shortest; one not shorter keeps the earlier one |
| PdpVns.ImprovedKept | pdp/vns.go:23-25 | the 2-opt result of a constructed route still holds each node once, feasible when the construction finished |
| PdpVns.Round | pdp/vns.go:19-25 | one round's route holds each node once, feasible when its construction finished |
| PdpVns.Vns | pdp/vns.go:4-33 | null exactly when preprocess panics; otherwise exactly max(iterationMax, 0) rounds after the first route, the first of smallest distance returned, only the arcs of the instance changed |
| PdpVns.KeepShorter | pdp/vns.go:17-29 | one more round is recorded; the best stays the first route of smallest total distance among all routes so far |

## Left out

**Whole files and I/O**

- core/core.go: the goroutines, the unbuffered channel and the `time.After` race are concurrency. The min-by-objective fold over the results is left out with them.
- core/sa.go and pdptw/sa.go: simulated annealing depends on floating point (`math.Exp`, `rand.Float64`).
- File and console I/O:
  - the file scanning of `ReadFromFile` in core/pdptw.go, pdptw/pdptw.go, gvns/tsp.go and pdp/pdp.go. The record interpretation over already tokenised lines is modelled, as `Instance.Header`, `Instance.Record` and `Instance.ReadLine`;
  - `Print`, `WriteToFile` and `strings()`;
  - the command lines of main.go and core/main.go.
- Configuration (config/configuration.go), logging (logging/logging.go) and the external checker (check/check.go) are not part of this model. The log calls inside cons2Opt (pdptw/local2opt.go:168-177) compare the incremental caches with a full recompute. They are modelled as the proved equality in `PdptwLocal2Opt.ApplyMove`, not as output.
- pdptw/objective.go holds only declarations.
- `local2OptLexical` (pdptw/local2opt.go:684-812) is a log-driven experiment and is not part of this model.
- The Python helpers are not part of this model.

**Randomness, integers and sorting**

- Randomness: the seeding and the distribution of `math/rand` are not modelled. Each draw is a nondeterministic choice within the range the code uses.
- Go `int` is modelled as a mathematical integer, so overflow is not modelled. `math.MaxInt64` in the nearest-neighbour scan is a constant of that value.
- Ties in `sort.Slice` and `sort.Sort`: the order among equal keys is not fixed. The model takes any permutation sorted by the key.

**Identifiers the packages use but do not define**

- PdptwConstruction.Process: `Penalty` and `calcSets` are called on pdptw.Solution (pdptw/construction.go:60, 187) but defined nowhere in the package. They are an `Evaluator` parameter: any non-negative penalty function and any two lists of inner positions.
- The pdptw field `precendense` (pdptw/solution.go:83) is read as the instance's `precedence` map (pdptw/pdptw.go:36).
- CoreConstruction.GetSolution: the four strategies of core/construction.go:35-43 are not defined in the core package. GetSolution hands back any route of numNodes nodes of the instance, and the repair loop is proved for every such route. The same four algorithms of the pdptw package are modelled in PdptwGenerate.
- CoreSearch.NewGvns: `cons2Opt` and `config.GVNS` (core/gvns.go:8-13) do not resolve in the core package. The driver's search is the core 2-opt search.
- GvnsSearch.Gvns: the gvns `Construction` (gvns/gvns.go:10) is not part of the shown files. The routes it builds are a `builds` parameter, each a route of at least numNodes positions that names only nodes of the instance.

**Loops that need not end, bounded by `fuel`**

Each of these members takes a `fuel` bound. A further improvement, round or kept move past the bound ends the loop, and the contract holds for whatever is returned then.

- CoreConstruction.Process: the repair loop ends only on a feasible route; fuel bounds its rounds, and `done` says whether it ended on its own.
- CoreLocal2Opt.Local2Opt.Process: fuel bounds the applied moves.
- CoreSearch.RunSearch and CoreSearch.VndProcess: fuel is handed to the core 2-opt search.
- CoreSearch.VnsProcess, CoreSearch.Rounds and CoreSearch.GvnsProcess: fuel bounds the adopted improvements and is handed to each search. Without improvements the level loop ends on its own.
- GvnsLocal2Opt.Local2Opt.Process: fuel bounds the applied 2-opt moves.
- GvnsSearch.BuildAndSearch and GvnsSearch.Gvns: fuel is handed to the 2-opt of each round.
- PdptwConstruction.Process and PdptwConstruction.ProcessOrPanic: fuel bounds the repair rounds.
- PdptwLocal2Opt.ConsLocal2Opt, PdptwLocal2Opt.Local2OptSearch, PdptwLocal2Opt.Local2OptProcess, PdptwLocal2Opt.ConsProcess and PdptwLocal2Opt.Process: fuel bounds the kept moves and adopted improvements.
- PdptwVns.Round, PdptwVns.Vns and PdptwVns.VnsAsWritten: fuel is handed to the repair and 2-opt loops of each round.
- PdpConstruction.Process: fuel bounds the repair rounds.
- PdpLocal2Opt.Local2Opt.Local2OptSearch and PdpLocal2Opt.Local2Opt.Process: fuel bounds the kept exchanges and adopted improvements.
- PdpVns.Round and PdpVns.Vns: fuel is handed to the loops of each round.

**Other modelling choices**

- Panics are modelled in two ways:
  - a `null` result where a panic is the point: PdpVns.Vns when `preprocess` writes into a missing row, and PdptwVns.VnsAsWritten when the nil strategy is called;
  - requires clauses that exclude index-out-of-range panics. Most are route lengths equal to numNodes and positions within the route.
- The unused `inc` slices of pdp and pdptw `Local2Opt` are kept as fields and never read. The same holds for the `levelMax` arguments of the VNS functions of pdptw, gvns and pdp.
- `GetNode`, `GetCurrent` and `HasNode` of the core, gvns and pdp solutions are plain accessor functions with no contract beyond their body.
- pdp/solution.go:133 appends to the feasible slice. The as-written `PdpSolution.SetsUpToAsWritten` reads that append with value semantics: the two result slices are taken to share no storage.
- PdpSolution.PenaltyZeroIffFeasible: the direction from penalty 0 to feasibility needs every pickup to lie on the route. A pickup that is missing adds nothing to the source's penalty.

## Findings

| source | as written | input that shows it | evidently intended | confidence | as-written member | corrected member |
|---|---|---|---|---|---|---|
| pdptw/local2opt.go:283 | `isFeasible` starts the reversed route from `inc[i]`, the clock on reaching position i+1 | 5 nodes, travel 10 from node 1 to node 2 and 1 elsewhere, due date 5 at node 3 and 100 elsewhere, route 0 1 2 3 4, move (1, 3): the reversed route meets every due date, yet the test rejects it | start from `inc[i-1]`, the clock on reaching position i, as `exchangeGlobalUpdate` does | not executed | PdptwLocal2Opt.StartClockRejectsMove | PdptwLocal2Opt.IsFeasibleAtClock |
| pdptw/local2opt.go:227-235 | `exchangeGlobalUpdate` writes `precedence[pred_i] = j` and `precedence[pred_j] = i` for every swapped pair of positions, even when the partner read is 0, which is what `calcGlobals` gives an unpaired position | route 0 1 2 3 4 with travel 10 from node 1 to node 2 and 1 elsewhere, due dates 100, capacity 1, node 2 picking up one unit that node 4 delivers, move (1, 3): `cons2Opt` takes the move (the route as written passes `isFeasible` from inc[1] and the move is profitable), and afterwards the cache entry of position 0 is 2, while `calcGlobals` on the new route gives 0, so the `reflect.DeepEqual` comparison at pdptw/local2opt.go:174 fails. Position 0 is never read by `isFeasible`. A second drift, a pair with both ends inside the segment ending paired with itself (`SwappedPairsDrift`), stays latent: `isFeasible` rejects every such move (pdptw/local2opt.go:320-322, `PairInsideRejected`) | the precedence cache equal to the one `calcGlobals` computes for the new route, which the source compares it with | not executed | PdptwLocal2Opt.OriginEntryDrifts | PdptwLocal2Opt.ApplyMove |
| pdptw/local2opt.go:166 | the load cache is computed once before the search and never refreshed after a move | the same instance, route and move: `cons2Opt` takes the move, and the cache still says one unit on board after position 2, while the new route, which serves the unpaired node 3 there, carries nothing | the load cache recomputed after every applied move | not executed | PdptwLocal2Opt.LoadsGoStale | PdptwLocal2Opt.ApplyMove |
| pdptw/vns.go:12 | `VNS` uses the zero `Construction{}`, whose strategy is a nil interface | any instance: the first `cons.Process` call dereferences the nil strategy and panics before a route exists | a construction with a real strategy (the random one) and the caller's levelMax | not executed | PdptwVns.VnsAsWritten | PdptwVns.Vns |
| pdp/solution.go:133 | an unmet delivery sets `unfeasible = append(feasible, i)`, so the unfeasible list is rebuilt from the feasible one | route 0 1 2 3 with deliveries 1 and 2 both waiting for pickup 3: the unfeasible list is [2], not [1, 2] | `unfeasible = append(unfeasible, i)`, as the same loop in gvns/solution.go:104 does | not executed | PdpSolution.CalcSetsLosesUnmet | PdpSolution.Solution.CalcSets |
| core/localShifting.go:148 | `calcGlobals` (core/localShifting.go:39-57) never writes `traveled[0]`, so it stays 0, while `isFeasible` walks from `traveled[pos-1]` or `traveled[newPos-1]`, which is that entry when pos or newPos is 1. `updateGlobals(1)` restarts from it too (core/localShifting.go:88) | an instance that starts at time 10 (the header fields of core/pdptw.go:103-106), unit travel, due dates 11 at node 1 and 12 at node 2, route 0 1 2 3: every position is served, `isFeasible(1, 2)` accepts, and the new route 0 2 1 3 reaches node 1 at 12, after its due date. `process` reaches this move on the first draw i = 1 | `traveled[0]` holding the start time, so every walk starts from the true clock | not executed | CoreLocalShifting.ZeroStartAcceptsLate | CoreLocalShifting.LocalShifting.SeedStart |
| core/local2Opt.go:116 | `calcGlobals` (core/local2Opt.go:223-241) never writes `traveled[0]` and writes no `carrying[-1]`, while `isFeasible(0, j)` starts from `traveled[0]` and `exchangeGlobalUpdate(0, j)` restarts the load from `carrying[-1]` (core/local2Opt.go:76), which reads 0 | the same instance and route under the span objective: the move (0, 2) is profitable against the cached clocks 13 and 0, `isFeasible` accepts it, and the reversed route 0 2 1 3 misses node 1's due date. With a start load c other than 0, every move from i = 0 leaves `carrying[0]` short by c (`CoreLocal2Opt.ZeroStartLoadDrifts`) | the clock cache starting at the start time and the load restarting at the start load | not executed | CoreLocal2Opt.ZeroStartTakesLate | CoreLocal2Opt.Local2Opt.SeedStart |

The corrected members are the ones the rest of the model uses:

- the pdptw cons2Opt search accepts moves through `IsFeasibleAtClock` and keeps its caches through `ApplyMove`;
- `PdptwVns.Vns` builds with the random strategy;
- the pdp construction computes its lists with the corrected `calcSets`;
- both core local searches call `SeedStart` after calcGlobals. It writes the start time at position 0 of the clock cache, and for 2-opt the start load under key -1 of the load cache. `CoreLocalShifting.ShiftKeeps` and `CoreLocal2Opt.MoveKeeps` are then proved for every start time and start load. The as-written caches are exact at every position only from time 0 with an empty vehicle (`CoreLocalShifting.CachesExact`, `CoreLocal2Opt.UpdatedTimesFollow`, `CoreLocal2Opt.UpdatedLoadsFollow`). The one exception is the clock restart of `updateGlobals(from)` for from >= 2, which is exact for any start (`CoreLocalShifting.ShiftedTimesFollow`).

The contracts of `PdpConstruction.Local1Shift` and `PdpConstruction.Disturb` do not depend on which positions the lists hold. `Disturb` moves exactly when both lists are non-empty, and both versions of calcSets agree on that.
