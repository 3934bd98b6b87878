# puzzle-search: a Dafny model of the IDA* core

puzzle-search solves single-agent permutation puzzles with iterative-deepening
A* (IDA*). The model covers two puzzles: the sliding-tile puzzle and the
pancake-flipping puzzle. It also covers the tools that prune the search:
- a Manhattan-distance or gap heuristic maintained incrementally;
- BPMX heuristic propagation;
- skipping the operator that undoes the previous move;
- a hashed transposition table (TT) that may cache heuristic values;
- a perimeter database (PDB) filled by a backward depth-first search (DFS) from the goal and read back as a heuristic.

The model is written in terms of immutable values. A `SearchState` is a puzzle state together with its cost, incremental hash, incremental heuristic and previous operator. The tables are sequences of entries. The recursive searches return the node and the tables they leave behind, instead of mutating them.

Modules, in dependency order:
- `Config`: the compile-time switches of `common.h` as a run-time `Options` record, with the constants `MAX_COST`, `TT_SIZE`, `PERIMETER_DB_SIZE` and `PERIMETER_DEPTH`.
- `Seqs`: sums, XOR folds, swaps and permutations over sequences.
- `Priority`: `getPriority` as written, and the corrected total version.
- `SlidingTile` and `Pancake`: the two puzzle domains. Each has its state, operator lists, `apply`, `reverse`, incremental hash and incremental heuristic.
- `Domain`: one interface over both puzzles, as a sum type dispatched on its tag.
- `SearchStates`: `SearchState` with `init`, `load`, `==`, `apply`, `unapply`, the successor and predecessor operator lists, and `randomize`.
- `TransTable`, `PerimeterDb`: the two hashed tables.
- `Ida`: `getHeuristic`, `checkHeuristic`, `prune`, `idaRecursive` and `search`.
- `Dfs`: `DFS::prune`, `dfsRecursive` and `DFS::search`.

Three kinds of input that the program takes from elsewhere are parameters here:
- The random hash-table contents are a `HashTable` argument.
- The random numbers drawn by `randomize` are a sequence of rolls.
- The uninitialised fields that `reset` leaves behind are a `junk` entry.

## Model

| member | source | states |
|---|---|---|
| Priority.GetPriority | src/slidingTile.h:137-143 | For a non-zero hash the priority is `0xFFFFFFFF / hash`, which lies in [1, MAX_PRIORITY]. Hash 1 gets the maximum. |
| Priority.GetPriorityAntitone | src/slidingTile.h:137-143 | A larger hash never gets a higher priority. |
| Priority.StatePriority | src/kpancake.h:124-130 | The corrected priority is defined at every hash, including 0, and agrees with getPriority wherever that is defined. |
| Priority.StatePriorityAntitone | src/kpancake.h:124-130 | The corrected priority is antitone in the hash over the whole bv32 range. |
| SlidingTile.Goal | src/slidingTile.hpp:13-19 | The goal board is a valid board with the blank in location 0. |
| SlidingTile.BlankAfterScan | src/slidingTile.hpp:21-37 | The blank location after load's scan is the last position holding 0. If no position holds 0, the previous blank location is kept. |
| SlidingTile.Load | src/slidingTile.hpp:21-37 | The tiles are the values read. The blank location indexes a 0. A permutation of 0..8 loads as a valid board. |
| SlidingTile.SameIsEquality | src/slidingTile.hpp:39-45 | On valid boards, comparing tiles alone is full equality, because the blank location is determined by the tiles. |
| SlidingTile.Reverse | src/slidingTile.hpp:225-235 | The reverse of an operator is an operator, and NO_OP reverses to NO_OP. |
| SlidingTile.ReverseInvolution | src/slidingTile.hpp:225-235 | Reversing twice gives back the operator. |
| SlidingTile.NewBlankInRange | src/slidingTile.hpp:47-62 | A legal move keeps the blank on the board, and every real move changes its location. |
| SlidingTile.Move | src/slidingTile.hpp:65-101 | Applying an operator swaps the blank with the neighbouring tile. The result is a valid board and nothing else moves. |
| SlidingTile.MoveThenReverse | src/slidingTile.hpp:225-235 | After a move, the reverse operator is legal and restores the board exactly. |
| SlidingTile.ValidOperators | src/slidingTile.hpp:129-175 | The list holds exactly the moves that stay on the board and are not the reverse of the previous operator. It is increasing and has at most 4 entries. |
| SlidingTile.ValidOperatorsNonEmpty | src/slidingTile.hpp:129-175 | Every blank location has at least one successor operator, whatever the previous operator was. |
| SlidingTile.OpTable | src/slidingTile.hpp:185-195 | The lookup table has one row per blank location and one list per previous operator. |
| SlidingTile.GetValidOperators | src/slidingTile.hpp:197-205 | A table lookup returns the computed operator list. |
| SlidingTile.MdTable | src/slidingTile.hpp:300-314 | The table is 9x9. Entry [tile][cell] is the grid distance between the tile's goal cell and the cell. It is symmetric, with a zero diagonal. |
| SlidingTile.TableHeuristic | src/slidingTile.hpp:269-287 | calculateHeuristic computed through mdTable, summing the lookups of the non-blank cells, equals the Manhattan sum of the board. |
| SlidingTile.TableIncrementHeuristic | src/slidingTile.hpp:257-266 | incrementHeuristic computed through mdTable equals the incremental Manhattan update. apply uses this version. |
| SlidingTile.GoalHeuristicZero | src/slidingTile.hpp:269-287 | The Manhattan distance of the goal is 0. |
| SlidingTile.IncrementHeuristicExact | src/slidingTile.hpp:257-266 | The incremental update after a move equals the heuristic recomputed from scratch. |
| SlidingTile.ManhattanConsistent | src/slidingTile.hpp:257-287 | One move changes the Manhattan distance by exactly one. |
| SlidingTile.IncrementHashExact | src/slidingTile.hpp:362-384 | The incremental XOR hash update after a move equals the hash recomputed from scratch. |
| SlidingTile.Apply | src/slidingTile.hpp:65-101 | apply moves the board at cost 1 and keeps a correct hash and heuristic correct. |
| Pancake.Goal | src/kpancake.hpp:13-18 | The goal stack is a valid permutation, with plate N-1 at index 0 and plate 0 at the far end. |
| Pancake.Reverse | src/kpancake.hpp:165-168 | Every flip is its own reverse. |
| Pancake.FlipPreservesPermutation | src/kpancake.hpp:43-82 | A flip keeps the stack a permutation. |
| Pancake.FlipInvolution | src/kpancake.hpp:43-82 | Flipping the same prefix twice restores the stack. |
| Pancake.SwapLoopFlips | src/kpancake.hpp:43-82 | apply's swap loop reverses the prefix 0..op. The hash it threads through the loop is the hash of the flipped stack. |
| Pancake.IncrementHashExact | src/kpancake.hpp:311-320 | One swap's incremental hash update equals the hash recomputed from scratch. |
| Pancake.GoalHeuristicZero | src/kpancake.hpp:182-211 | The gap heuristic as written is 0 on the goal. |
| Pancake.IncrementHeuristicExact | src/kpancake.hpp:214-254 | The as-written incremental gap update after a flip equals the as-written heuristic recomputed. |
| Pancake.GapHeuristicOverestimates | src/kpancake.hpp:182-211 | Counterexample: one flip of the goal has as-written heuristic 2 although it is one flip from the goal. |
| Pancake.StackGaps | src/kpancake.hpp:182-211 | The corrected gap count is the as-written count with its plate term moved from index 0, the end every flip moves, to the fixed end: the last position is compared with a plate standing for pancake -1. It is non-negative. |
| Pancake.IncrementStackGapsExact | src/kpancake.hpp:214-254 | The corrected incremental update after a flip equals the corrected count recomputed. |
| Pancake.StackGapsConsistent | src/kpancake.hpp:214-254 | One flip changes the corrected count by at most one. |
| Pancake.StackGapsGoalZero | src/kpancake.hpp:182-211 | The corrected count is 0 on the goal. |
| Pancake.StackGapsAdmissible | src/kpancake.hpp:182-211 | The corrected count never exceeds the length of any flip sequence that reaches the goal. |
| Pancake.OpsFrom | src/kpancake.hpp:94-115 | The helper lists exactly the flips from i upward except the excluded one, in increasing order. |
| Pancake.ValidOperators | src/kpancake.hpp:94-115 | The list is exactly the flips 1..N-1 other than the previous operator, in increasing order, and its length is fixed by whether prevOp is a flip. |
| Pancake.GetValidOperators | src/kpancake.hpp:139-147 | A table lookup returns the computed operator list. |
| Pancake.Apply | src/kpancake.hpp:43-82 | apply flips at cost 1, keeps the stack valid, and keeps a correct hash and corrected heuristic correct. |
| Domain.Goal | src/searchState.h:70-74 | The goal of either puzzle is a valid state. |
| Domain.ZeroState | src/perimeterDB.hpp:13-15 | The value-initialised state is of the right puzzle and is not valid. |
| Domain.Load | src/searchState.h:103-107 | Loading a permutation gives a valid state of the configured puzzle. |
| Domain.SameIsEquality | src/searchState.h:130-138 | On valid states, the state comparison is equality. |
| Domain.ValidIsNotZero | src/perimeterDB.hpp:205-218 | No valid state compares equal to the value-initialised state, so an empty slot never matches. |
| Domain.ReverseInvolution | src/searchState.h:175-178 | In both puzzles the reverse of the reverse is the operator. |
| Domain.SuccessorOperators | src/searchState.h:195-202 | Every listed operator is legal, in range and not NO_OP. Under reverse skipping the reverse of prevOp is absent. The list is never empty. |
| Domain.SuccessorOperatorsComplete | src/searchState.h:195-202 | Every legal operator that is not skipped appears in the list. |
| Domain.Successor | src/searchState.h:140-168 | Applying a legal operator to a valid state gives a valid state. |
| Domain.ReverseUndoes | src/searchState.h:175-178 | In both puzzles the reverse of an operator is legal afterwards and undoes it. |
| Domain.ZeroHashReachable | src/slidingTile.h:137-143 | Some hash tables give a valid state the hash 0, the one input on which getPriority divides by zero. |
| Domain.GoalHeuristicZero | src/searchState.h:84-96 | The maintained heuristic is 0 at the goal of either puzzle. |
| Domain.Heuristic | src/searchState.h:84-96 | The from-scratch heuristic a search state keeps is non-negative. For pancakes it is the corrected count, not calculateHeuristic. |
| Domain.HeuristicVersusCalculated | src/searchState.h:84-96 | For tiles the maintained heuristic is calculateHeuristic. For pancakes it differs from calculateHeuristic exactly by the plate term, moved from index 0 to the fixed end. |
| Domain.HeuristicConsistent | src/searchState.h:140-168 | One operator changes the maintained heuristic by at most one in either puzzle. For pancakes this holds for the corrected count only: the as-written count can rise by 2 in one flip (Pancake.GapHeuristicOverestimates). |
| Domain.Apply | src/searchState.h:140-168 | apply yields the successor at cost 1, with a correct hash and heuristic kept correct. |
| SearchStates.Init | src/searchState.h:84-101 | init gives cost 0 and NO_OP, with the hash and heuristic computed from the state. |
| SearchStates.Fresh | src/searchState.h:70-74 | A new search state is the goal at cost 0 and internally consistent. |
| SearchStates.Load | src/searchState.h:103-107 | load puts the parsed state at cost 0 with NO_OP, and it is consistent. |
| SearchStates.EqIsStateEquality | src/searchState.h:130-138 | For consistent nodes, `==` holds exactly when the puzzle states are equal. |
| SearchStates.Apply | src/searchState.h:170-173 | apply moves to the successor, adds one to the cost, records the operator and keeps consistency. |
| SearchStates.Unapply | src/searchState.h:175-178 | unapply applies the reverse operator, subtracts one from the cost and records the reverse as prevOp. |
| SearchStates.RoundTrip | src/searchState.h:170-178 | unapply after apply restores the node in every field except prevOp. |
| SearchStates.SuccessorOps | src/searchState.h:195-202 | The successor list is non-empty and legal. Under reverse skipping it omits the reverse of prevOp. |
| SearchStates.PredecessorOps | src/searchState.h:204-212 | The predecessor list is the successor list: both puzzles answer findPredecessorOperators with the successor operators. |
| SearchStates.Walk | src/searchState.h:170-173 | Following a legal operator sequence stays valid and adds its length to the cost. |
| SearchStates.WalkAppend | src/searchState.h:170-173 | A walk extended by one operator is one more apply. |
| SearchStates.DrawOps | src/searchState.h:180-193 | The drawn operators form a legal path as long as the rolls. |
| SearchStates.Randomize | src/searchState.h:180-193 | randomize walks numRandOps steps, each choosing `list[roll % size]` from the current predecessor list. |
| TransTable.CalculateIndex | src/transTable.hpp:37-40 | The index is hash mod TT_SIZE, so it is in range and congruent to the hash. |
| TransTable.Reset | src/transTable.hpp:9-35 | After reset no slot is filled (cost MAX_COST). In lazy mode every cost limit is -1. |
| TransTable.UpdateEntry | src/transTable.hpp:46-95 | Expand exactly when the new cost is lower, or, when lazy, equal under a new cost limit. The stored cost becomes the minimum. Otherwise nothing changes. |
| TransTable.UpdateEntryTwicePrunes | src/transTable.hpp:46-95 | Repeating an update does not ask for a second expansion. |
| TransTable.PruneState | src/transTable.hpp:129-187 | Only the hashed slot can change. Prune exactly on a match that updateEntry declines. An empty slot is claimed without the heuristic. An occupied slot is displaced only by a higher priority. |
| TransTable.PruneStateTwicePrunes | src/transTable.hpp:129-187 | Once a state sits in its slot, the same query prunes. |
| TransTable.GetCachedHeuristic | src/transTable.hpp:97-111 | A non-zero cached value comes only from a matching slot with caching on. |
| TransTable.UpdateCachedHeuristic | src/transTable.hpp:114-127 | Only the matching slot's heuristic changes, and it is raised to the maximum of old and new. |
| TransTable.CachedHeuristicAfterUpdate | src/transTable.hpp:97-127 | After an update the cached value is at least both the offered and the previous value. |
| TransTable.CountFilledUpdate | src/transTable.hpp:189-198 | Overwriting one slot changes the filled count by that slot's change alone. |
| TransTable.ResetIsEmpty | src/transTable.hpp:27-35 | A reset table has no entries. |
| TransTable.PruneStateCount | src/transTable.hpp:129-198 | pruneState adds at most one entry, and never removes one when the cost is real. |
| TransTable.NumEntries | src/transTable.hpp:189-198 | The loop counts exactly the slots whose cost is not MAX_COST. |
| PerimeterDb.CalculateIndex | src/perimeterDB.hpp:294-297 | The index is hash mod PERIMETER_DB_SIZE, so it is in range and congruent to the hash. |
| PerimeterDb.Reset | src/perimeterDB.hpp:182-189 | After reset no slot is filled, every slot holds the zero state, and the table invariant holds. |
| PerimeterDb.UpdateEntry | src/perimeterDB.hpp:35-84 | The TT rule applies, with the iteration number in the role of the cost limit. |
| PerimeterDb.PruneState | src/perimeterDB.hpp:236-292 | Only the hashed slot changes. Prune exactly on a match that updateEntry declines. Empty slots are claimed. Collisions displace only by a higher priority. |
| PerimeterDb.PruneStateFills | src/perimeterDB.hpp:236-292 | At a real cost, pruneState leaves the state's slot filled, whatever it held, and empties no filled slot. |
| PerimeterDb.PruneStateKeepsInv | src/perimeterDB.hpp:236-292 | Storing a valid state at a real cost keeps every filled slot valid and every empty slot zeroed. |
| PerimeterDb.PruneStateTwicePrunes | src/perimeterDB.hpp:236-292 | Once a state sits in its slot, the same query prunes. |
| PerimeterDb.PruneStatePriorityMonotone | src/perimeterDB.hpp:271-287 | With prioritisation on, the priority in a filled slot never drops. |
| PerimeterDb.GetHeuristic | src/perimeterDB.hpp:205-218 | The heuristic is the stored cost when the slot holds the state, and 0 otherwise. |
| PerimeterDb.GetHeuristicBounds | src/perimeterDB.hpp:205-218 | For a valid state in a well-formed table, the heuristic is in [0, MAX_COST). |
| PerimeterDb.GetHeuristicAfterPrune | src/perimeterDB.hpp:205-292 | A state just stored reads back at no more than the cost it was offered at. |
| PerimeterDb.GetState | src/perimeterDB.hpp:220-233 | A slot is returned exactly when it is filled. |
| PerimeterDb.GetStateValid | src/perimeterDB.hpp:220-233 | A returned slot holds a valid state at a cost in [0, MAX_COST). |
| Ida.Bpmx | src/search.hpp:102-105 | BPMX raises the node heuristic to at least the inherited floor minus one, and the floor to at least the node heuristic minus one. Each is its old value or the new bound. |
| Ida.GetHeuristic | src/search.hpp:18-41 | The result is the maximum of the enabled sources (incremental, PDB, cached TT), each read only if enabled. It is 0 when none is enabled. |
| Ida.CheckHeuristic | src/search.hpp:43-50 | Without TT caching the table is untouched. Otherwise only the node's slot changes, and its cached value rises to at least the heuristic on a match. |
| Ida.Prune | src/search.hpp:52-88 | Pruned by cost exactly when cost + heuristic exceeds the bound. Otherwise, with a TT, the verdict is a TT prune exactly when pruneState prunes, and the table is pruneState's. A TT prune means an equal state is stored at no greater cost. Without a TT the table is untouched. |
| Ida.ExtendSolution | src/search.hpp:155-186 | A solution from a child, prefixed with the operator, is a solution from the parent within the same bound. |
| Ida.UnapplyRestores | src/search.hpp:155-186 | Unapplying after the child's search restores the parent node. |
| Ida.Examine | src/search.hpp:96-125 | The head of idaRecursive. Without BPMX the node heuristic is getHeuristic's value and the floor is unchanged. With BPMX the heuristic is max(floor - 1, getHeuristic) and the floor becomes max(floor, heuristic - 1). Pruned by cost exactly when cost + heuristic exceeds the bound. Otherwise, with a TT, the verdict and the table are pruneState's, applied after checkHeuristic. Without a TT the table is untouched and no TT prune happens. |
| Ida.IdaRecursive | src/search.hpp:96-189 | The node is restored on return. BPMX only raises the caller's floor, to at least this node's heuristic minus one. FoundSolution returns a legal path to the goal within the bound. TT statuses arise only with a TT. |
| Ida.ExpandChild | src/search.hpp:155-186 | One turn of the child loop keeps the node restored, only raises the node heuristic, and returns a solution path for FoundSolution. |
| Ida.Search | src/search.hpp:275-354 | The result is -1, or a bound in [1, MAX_COST] together with a legal path from start to the goal of at most that length. |
| Dfs.ResetIsSound | src/perimeterDB.hpp:182-189 | A reset database has no entry that lacks a witness walk. |
| Dfs.PruneStateKeepsSound | src/search.hpp:449-470 | Storing a state reached by a walk from the goal, at the walk's cost, keeps every entry witnessed. |
| Dfs.HeuristicIsWalkLength | src/perimeterDB.hpp:205-218 | A non-zero perimeter heuristic is the length of a real walk from the goal to the state. |
| Dfs.DfsPrune | src/search.hpp:449-470 | Over the bound it prunes with the table unchanged. Without a PDB it prunes exactly over the bound. With a PDB it is pruneState's verdict. |
| Dfs.PruneStateCostsAtMost | src/search.hpp:449-470 | Storing within the bound keeps every stored cost within it. |
| Dfs.DfsRecursive | src/search.hpp:414-445 | The node is restored. The database stays well-formed and witnessed, and stays within the bound. No filled slot is emptied. With a PDB and the node within the bound, the node's slot is filled afterwards. Without a PDB the database is untouched. |
| Dfs.ExpandPredecessor | src/search.hpp:414-445 | One turn of the predecessor loop keeps the same invariants. |
| Dfs.DfsSearch | src/search.hpp:363-376 | After the passes 0..depth-1, every stored entry is witnessed by a walk from the goal at its cost, and no cost is depth or more. No filled slot is emptied. With a PDB and depth above the goal's cost, the goal's slot is filled. |

## Left out

- Logging, timing, node and generation counters, statistics and `main.cpp` are left out. They do not affect what is searched or returned.
- Hash tables are filled with random numbers in the source. Here they are a parameter, and every property holds for every table.
- `State::load` parses text with `sscanf`. The model takes the parsed sequence of integers.
- SlidingTile.Load, Domain.Load, SearchStates.Load: for input that is not a permutation, only the parse is modelled. The source's later table lookups would read out of bounds, so `SearchStates.Load` requires a permutation.
- The lookahead and the TT and perimeter scan expansion of `search` are left out.
- Ida.Search: the trace output and the final statistics of `search` are omitted. The contract bounds the result but does not state optimality or completeness, which would need admissibility of the PDB and TT heuristics.
- Ida.IdaRecursive: how the children's statuses combine into the node's status (AllChildrenInTT versus SomeChildrenLeaf) is modelled in the body but not stated beyond "TT statuses arise only with a TT".
- `resetTT` is called by `search` but is defined nowhere in the repository. It is modelled as the TT `reset`.
- `unapply` leaves prevOp at the reverse operator instead of restoring it. The model follows the code, so the round trip is equality up to prevOp (`SameNode`).
- A search whose start equals the goal reports bound 1, because the first bound tried is 1. The exact value also depends on heuristics cached in uninitialised TT slots (the `junk` parameter), so the contract only states the range.
- With the heuristic or hash compile switches off, the source drops those fields. The model always keeps them and reads them only when the option is on.
- SearchStates.Randomize: stated as a walk along the drawn operators. The random generator is replaced by the sequence of rolls.
- Pancake.Apply, Domain.Heuristic, Domain.Apply, Domain.HeuristicConsistent, SearchStates.Init, SearchStates.Load: for pancakes the heuristic that is computed and maintained is the corrected gap count `StackGaps`, not the as-written `calculateHeuristic`/`incrementHeuristic` (see Findings). The two differ by the plate term, as `Domain.HeuristicVersusCalculated` states. For example, the stack [6,7,5,4,3,2,1,0] has 1 here and 2 in the source, so with the heuristic on, IDA* prunes pancake nodes differently from the source.
- TransTable.PruneState, PerimeterDb.PruneState: slot priorities use the corrected total `StatePriority`. At hash 0 the source's `getPriority` divides by zero (see Findings); the model gives MAX_PRIORITY there. The same holds for the IDA* and DFS searches that call them.
- Dfs.DfsSearch: admissibility of the perimeter heuristic (that a stored cost is the shortest distance) is not proved. Only that it is a real walk length is proved.
- Dfs.DfsRecursive, Dfs.DfsSearch: of the states expanded, only the root's slot is stated to be filled afterwards. Which other states survive in the database is not stated, because a later state hashing to the same slot can displace them when prioritisation is on.
- The uninitialised fields left by the TT entry constructor and by `reset` are taken from a `junk` entry.

## Findings

| source | as written | input that shows it | evidently intended | confidence | as-written member | corrected member |
|---|---|---|---|---|---|---|
| src/slidingTile.h:137-143 | `getPriority` divides `0xFFFFFFFF` by the state's hash | a hash table under which a state hashes to 0 (all-zero table) | a total priority, highest for the smallest hash | not executed | Priority.GetPriority, Domain.ZeroHashReachable | Priority.StatePriority |
| src/kpancake.hpp:182-211 | the gap heuristic compares the plate, as pancake N, with the pancake at index 0, the end that every flip moves | the goal flipped at 1, [6,7,5,4,3,2,1,0]: heuristic 2, one flip from the goal | an admissible, consistent gap heuristic whose plate term sits at the fixed end of the stack | not executed | Pancake.GapHeuristicOverestimates | Pancake.StackGaps, Pancake.StackGapsAdmissible |
