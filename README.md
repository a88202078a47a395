# Algorithms and data structures, modelled in Dafny

A Dafny model of six algorithm exercises, one module per Java class:

- `ConstrainedLcs` covers `ConstrainedLCSSolver.java`, the constrained longest common subsequence. It has three parts:
  - a three-dimensional table over constraint progress k and prefixes i of `s1` and j of `s2`. The source's `Integer.MIN_VALUE` sentinel becomes the `Unreachable` cell;
  - a backward reconstruction that tries its moves in a fixed order;
  - an independent two-pointer feasibility check.
- `CollisionResolution` covers `CollisionResolution.java`. It has head insertion into chaining buckets, the linear and double-hashing probe functions, the generic probing insert and Brent's reordering insert. An open-addressing table is an array of optional keys.
- `TreeReconstruction` covers `TreeReconstruction.java`. It rebuilds a binary tree from its in-order traversal plus its pre-order or post-order traversal, into an array in heap layout (children of t at 2t+1 and 2t+2).
- `AlgorithmCollection` covers the array maximum and the 0/1 subset-sum table of `AlgorithmCollection.java`.
- `ExactCoverReductor` covers `ExactCoverReductor.java`. It reduces exact cover to CNF: one "at least one" clause per element and one "not both" clause per pair of sets sharing an element. It also counts the header's clauses and decodes the solver's answer into `chosenSets`.
- `FeedbackVertexSetSolver` covers `FeedbackVertexSetSolver.java`. It has depth-first cycle detection with a visited array and an on-path array, the integer degree heuristics, and the greedy loop. That loop removes the highest-scoring vertex until the graph is acyclic.
- `Wrappers` holds the shared pieces: `Option`, Java's 32-bit `int` range and wrap-around (`Wrap32`), and Java's truncating `%` (`JavaRem`).

## How the code is modelled

- Code that changes state is modelled as Dafny methods over arrays, with loops and invariants, and as recursive methods. Each method is proved against a specification function:
  - the DP table fill;
  - the two-pointer check;
  - the backtracking;
  - the probing and Brent inserts;
  - the tree helpers;
  - the subset-sum table;
  - clause generation and decoding;
  - the DFS and the greedy solver.
- The specification functions carry the properties as lemmas. Examples are the recurrence `Table`, the greedy sequence `Greedy`, `Layout`, `Reduce` and `BrentLoop`.

## Behaviour worth noting

- **The fallback the constraint branch omits.** A match equal to the next constraint character only extends `dp[k-1][i-1][j-1]`. When that cell is unreachable there is no fallback to `dp[k][i-1][j-1] + 1`. This is usually described as a possible under-count. The model keeps the code as written, and `ConstrainedLcs.FallbackChangesNothing` proves that adding the fallback would change no cell. The fallback never wins, because layer k is never better than layer k-1 (`ConstrainedLcs.LayerMonotone`).
- **Brent's insert with no iterations left.** The final insert runs only while iterations remain, so a key still in hand when they run out would be dropped. After a swap the key in hand moves to a free slot, and the next loop test stops at once. So a displaced key could be dropped only by a swap on the very last iteration. Up to then the same key has been stepping over an unchanged table and has come back to a slot it already passed, where the same decision (no swap) repeats. That case therefore does not arise, but the model does not prove this. `CollisionResolution.BrentInsertKeys` states what is proved: every key is either stored or is the one key left in hand.

## Model

| member | source | states |
|---|---|---|
| AlgorithmCollection.FindMax | 01-Basics-And-Dynamic-Programming/AlgorithmCollection.java:22-34 | null or empty array gives 0; otherwise the result is at least every element and equals one of them |
| AlgorithmCollection.HasSubsetSum | 01-Basics-And-Dynamic-Programming/AlgorithmCollection.java:83-98 | false for a negative target, whatever the numbers; otherwise true exactly when some choice of the numbers, each used at most once, sums to the target |
| AlgorithmCollection.AchievableIffSubset | 01-Basics-And-Dynamic-Programming/AlgorithmCollection.java:89-96 | the relation the table tracks (each number taken or skipped once) holds exactly when some selection mask over the numbers sums to s |
| AlgorithmCollection.NegativeSumUnachievable | 01-Basics-And-Dynamic-Programming/AlgorithmCollection.java:84 | with non-negative numbers no negative sum is achievable, which justifies the early `false` |
| CollisionResolution.InsertChaining | 04-Hashing-Strategies/CollisionResolution.java:14-26 | the buckets become `ChainInserted`: the key in front of the old chain of bucket `key % capacity` |
| CollisionResolution.ChainInsertKeys | 04-Hashing-Strategies/CollisionResolution.java:14-26 | the keys of all buckets gain exactly the new key, which heads its bucket, and every other bucket is unchanged |
| CollisionResolution.ChainInsertKeepsHashing | 04-Hashing-Strategies/CollisionResolution.java:16-24 | if every key sat in bucket `key % capacity` before, it still does after the insert |
| CollisionResolution.ProbeLinear | 04-Hashing-Strategies/CollisionResolution.java:34-36 | `((key % capacity) + i) % capacity` in wrapping `int` arithmetic: always strictly inside (-|capacity|, |capacity|), and non-negative when key and i are and the sum does not wrap; `ProbeLinearIsCyclicStep` gives its exact value |
| CollisionResolution.ProbeLinearIsCyclicStep | 04-Hashing-Strategies/CollisionResolution.java:34-36 | for non-negative key and i the probe is a slot of the table, namely (key + i) mod capacity |
| CollisionResolution.SecondaryStep | 04-Hashing-Strategies/CollisionResolution.java:54 | `1 + key % 5` is between 1 and 5 for a non-negative key, so never zero, and between -3 and 1 for a negative one |
| CollisionResolution.ProbeDoubleHashing | 04-Hashing-Strategies/CollisionResolution.java:52-56 | `(key % capacity + i * (1 + key % 5)) % capacity` in wrapping `int` arithmetic: always strictly inside (-|capacity|, |capacity|), and non-negative when key and i are and nothing wraps; `ProbeDoubleHashingIsCyclicStep` gives its exact value |
| CollisionResolution.ProbeDoubleHashingIsCyclicStep | 04-Hashing-Strategies/CollisionResolution.java:52-56 | for non-negative key and i the probe is a slot of the table, namely (key + i * step) mod capacity |
| CollisionResolution.FirstFit | 04-Hashing-Strategies/CollisionResolution.java:62-72 | the step it returns probes a slot that is free or holds the key, and no earlier step does; when it returns none, no step below capacity does |
| CollisionResolution.FirstFitIs | 04-Hashing-Strategies/CollisionResolution.java:62-72 | a fitting step with no fitting step before it is the one the insert picks |
| CollisionResolution.Insert | 04-Hashing-Strategies/CollisionResolution.java:61-74 | the table becomes `Inserted`: the key is written at the first fitting probe, or the table is unchanged when no probe fits |
| CollisionResolution.InsertKeys | 04-Hashing-Strategies/CollisionResolution.java:65-71 | the stored keys gain the key exactly when it lands in a free slot; overwriting the same key, or finding no fit, keeps them |
| CollisionResolution.InsertIdempotent | 04-Hashing-Strategies/CollisionResolution.java:61-74 | inserting the same key a second time changes nothing |
| CollisionResolution.BrentStep | 04-Hashing-Strategies/CollisionResolution.java:89-110 | one iteration keeps the table size, a slot index and non-negative keys, and counts one iteration |
| CollisionResolution.BrentLoop | 04-Hashing-Strategies/CollisionResolution.java:88-111 | the loop ends after at most capacity iterations, at a free slot or with the iterations used up |
| CollisionResolution.BrentIteration | 04-Hashing-Strategies/CollisionResolution.java:89-110 | the array body of one iteration computes `BrentStep`: move on by the new key's step, or swap when the new key's next slot is taken and the occupant's is free |
| CollisionResolution.BrentRun | 04-Hashing-Strategies/CollisionResolution.java:88-111 | the array loop ends in the state `BrentLoop` describes |
| CollisionResolution.InsertBrentOptimized | 04-Hashing-Strategies/CollisionResolution.java:83-116 | the table becomes `BrentInserted`: the final key goes into the free slot only when iterations remain |
| CollisionResolution.BrentStepKeepsKeys | 04-Hashing-Strategies/CollisionResolution.java:102-109 | an iteration keeps the multiset of stored keys plus the key in hand; a swap exchanges the two |
| CollisionResolution.BrentLoopKeepsKeys | 04-Hashing-Strategies/CollisionResolution.java:88-111 | the whole loop keeps the stored keys plus the key in hand |
| CollisionResolution.BrentInsertKeys | 04-Hashing-Strategies/CollisionResolution.java:113-115 | when the loop stops at a free slot the stored keys gain exactly the new key; otherwise the key left in hand is the only one missing |
| ConstrainedLcs.MaxCellIsMathMax | 06-Advanced-Dynamic-Programming/ConstrainedLCSSolver.java:101-103 | the maximum of two cells is `Math.max` of the `int`s the source stores, with Unreachable as `Integer.MIN_VALUE` |
| ConstrainedLcs.PlusOneEquals | 06-Advanced-Dynamic-Programming/ConstrainedLCSSolver.java:128-135 | the test `dp[..] == prev + 1` on stored `int`s holds exactly when prev is reachable and the cell is one longer |
| ConstrainedLcs.ComputeDynamicProgrammingTable | 06-Advanced-Dynamic-Programming/ConstrainedLCSSolver.java:46-108 | a new (r+1)x(n+1)x(m+1) table whose every cell equals the recurrence `Table` |
| ConstrainedLcs.InitialiseLayers | 06-Advanced-Dynamic-Programming/ConstrainedLCSSolver.java:54-68 | layer 0 is all 0 and every other layer is all Unreachable |
| ConstrainedLcs.FillLayer | 06-Advanced-Dynamic-Programming/ConstrainedLCSSolver.java:71-106 | one pass of the k loop finishes layer k and leaves the finished layers intact |
| ConstrainedLcs.FillRow | 06-Advanced-Dynamic-Programming/ConstrainedLCSSolver.java:72-105 | one pass of the i loop finishes row i of layer k |
| ConstrainedLcs.FillCell | 06-Advanced-Dynamic-Programming/ConstrainedLCSSolver.java:79-103 | one inner cell gets its recurrence value: the match candidate or the better carry |
| ConstrainedLcs.IsSubsequence | 06-Advanced-Dynamic-Programming/ConstrainedLCSSolver.java:30-40 | the two-pointer loop answers exactly the subsequence relation (delete characters of the text) |
| ConstrainedLcs.SubseqGreedyMatch | 06-Advanced-Dynamic-Programming/ConstrainedLCSSolver.java:33-37 | when the first characters agree, matching them at once loses nothing, which is why the greedy loop is exact |
| ConstrainedLcs.IsFeasible | 06-Advanced-Dynamic-Programming/ConstrainedLCSSolver.java:17-25 | true exactly when the solution is a subsequence of s1 and of s2 and the constraint is a subsequence of the solution |
| ConstrainedLcs.BacktrackingClcs | 06-Advanced-Dynamic-Programming/ConstrainedLCSSolver.java:113-155 | an unreachable final cell gives the empty answer; otherwise the answer has the final cell's length and is feasible |
| ConstrainedLcs.BacktrackStep | 06-Advanced-Dynamic-Programming/ConstrainedLCSSolver.java:124-151 | a taken match drops one from the cell's length (and from k only on a constraint character); any other move keeps the cell's value and shortens i + j by one |
| ConstrainedLcs.ReachableBounds | 06-Advanced-Dynamic-Programming/ConstrainedLCSSolver.java:74-103 | a reachable cell's length is at least k and at most i and j, so layers k >= 1 are unreachable on their borders |
| ConstrainedLcs.TableMonotone | 06-Advanced-Dynamic-Programming/ConstrainedLCSSolver.java:100-103 | growing either prefix never makes a cell worse |
| ConstrainedLcs.CarryStep | 06-Advanced-Dynamic-Programming/ConstrainedLCSSolver.java:100-103 | every cell is at least the cell above and the cell to its left |
| ConstrainedLcs.CellUnreachable | 06-Advanced-Dynamic-Programming/ConstrainedLCSSolver.java:79-103 | an inner cell is unreachable exactly when its match candidate and both carries are |
| ConstrainedLcs.LayerMonotone | 06-Advanced-Dynamic-Programming/ConstrainedLCSSolver.java:84-97 | more constraint progress never gives a longer answer: layer k is at most layer k-1 |
| ConstrainedLcs.FallbackChangesNothing | 06-Advanced-Dynamic-Programming/ConstrainedLCSSolver.java:84-97 | a table that also tried `dp[k][i-1][j-1] + 1` on constraint characters equals the table as written |
| ConstrainedLcs.LayerZeroIsLcs | 06-Advanced-Dynamic-Programming/ConstrainedLCSSolver.java:81-103 | layer 0 is the classical LCS length of the two prefixes |
| ConstrainedLcs.Reversed | 06-Advanced-Dynamic-Programming/ConstrainedLCSSolver.java:154 | the reversal has the same length and reads the sequence backwards |
| ConstrainedLcs.ReversedAppend | 06-Advanced-Dynamic-Programming/ConstrainedLCSSolver.java:131-154 | appending to the reversed buffer is prepending to the answer |
| ExactCoverReductor.MembersSpec | 05-SAT-Reduction/ExactCoverReductor.java:84-89 | the literals of an element's clause are exactly the 1-based numbers of the sets containing it, increasing |
| ExactCoverReductor.AtLeastOneClause | 05-SAT-Reduction/ExactCoverReductor.java:80-97 | element u's clause is non-empty, closed by 0, increasing, and names set i exactly when set i contains u |
| ExactCoverReductor.AtLeastOneSpec | 05-SAT-Reduction/ExactCoverReductor.java:80-97 | the at-least-one clauses are exactly one cover clause per element |
| ExactCoverReductor.PairsUpToSpec | 05-SAT-Reduction/ExactCoverReductor.java:102-110 | element u's pair clauses are exactly `-(i+1) -(j+1) 0` for i < j both containing u |
| ExactCoverReductor.AtMostOneSpec | 05-SAT-Reduction/ExactCoverReductor.java:101-112 | the at-most-one clauses are exactly the pair clauses of all elements |
| ExactCoverReductor.LiteralsInRange | 05-SAT-Reduction/ExactCoverReductor.java:77-107 | every clause is non-zero literals within [1, numSets] in absolute value, closed by 0, as the header's variable count promises |
| ExactCoverReductor.HeaderCountMatches | 05-SAT-Reduction/ExactCoverReductor.java:77 | the header's clause count equals the number of clauses written, and its variable count is the number of sets |
| ExactCoverReductor.ClauseCounts | 05-SAT-Reduction/ExactCoverReductor.java:119-133 | one at-least-one clause per element, and as many pair clauses as the header adds up |
| ExactCoverReductor.CoverClauseHolds | 05-SAT-Reduction/ExactCoverReductor.java:79-97 | element u's clause holds exactly when a chosen set contains u |
| ExactCoverReductor.PairClauseHolds | 05-SAT-Reduction/ExactCoverReductor.java:106-107 | a pair clause holds exactly when not both sets are chosen |
| ExactCoverReductor.ReductionCorrect | 05-SAT-Reduction/ExactCoverReductor.java:67-114 | a choice of sets satisfies the clauses exactly when it is an exact cover; when no formula is produced there is no exact cover |
| ExactCoverReductor.CalculateTotalClauses | 05-SAT-Reduction/ExactCoverReductor.java:119-134 | the count is numElements plus c(c-1)/2 for each element's set count c |
| ExactCoverReductor.PairTerm32Exact | 05-SAT-Reduction/ExactCoverReductor.java:131 | while c(c-1) fits in an `int`, Java's term `(c * (c - 1)) / 2` is the number of pairs |
| ExactCoverReductor.PairTerm32Wraps | 05-SAT-Reduction/ExactCoverReductor.java:131 | for an element in 46342 sets Java's term is negative, although the true pair count fits in an `int` |
| ExactCoverReductor.Choose2Closed | 05-SAT-Reduction/ExactCoverReductor.java:131 | the number of pairs among c sets is c(c-1)/2 |
| ExactCoverReductor.GenerateDimacsCnf | 05-SAT-Reduction/ExactCoverReductor.java:73-114 | the header and clauses are exactly those of `Reduce`, or nothing when an element lies in no set |
| ExactCoverReductor.AppendPairs | 05-SAT-Reduction/ExactCoverReductor.java:102-111 | the pair loops of element u append exactly its pair clauses |
| ExactCoverReductor.FindExactCover | 05-SAT-Reduction/ExactCoverReductor.java:19-65 | true exactly for a non-empty matrix with every element covered and a usable answer; false leaves `chosenSets` alone; true leaves set i chosen exactly when a positive literal i+1 occurs |
| FeedbackVertexSetSolver.RankedNoCycle | 02-Graph-Algorithms/FeedbackVertexSetSolver.java:62-69 | a graph whose vertices all carry ranks that drop along every edge has no cycle |
| FeedbackVertexSetSolver.BackEdgeCycle | 02-Graph-Algorithms/FeedbackVertexSetSolver.java:32-35 | an edge from the end of the current path back into it closes a cycle |
| FeedbackVertexSetSolver.EnterVertex | 02-Graph-Algorithms/FeedbackVertexSetSolver.java:20-21 | marking an unvisited vertex visited and on the stack extends the path and keeps the search state |
| FeedbackVertexSetSolver.LeaveVertex | 02-Graph-Algorithms/FeedbackVertexSetSolver.java:39 | clearing the stack mark once every successor is finished finishes the vertex and keeps the stack equal to the path |
| FeedbackVertexSetSolver.VisitedOffStack | 02-Graph-Algorithms/FeedbackVertexSetSolver.java:27-35 | a visited vertex that is not on the stack is finished |
| FeedbackVertexSetSolver.CountFalseShrinks | 02-Graph-Algorithms/FeedbackVertexSetSolver.java:20 | visiting only adds marks, and visiting a new vertex removes an unvisited one, so the recursion ends |
| FeedbackVertexSetSolver.Dfs | 02-Graph-Algorithms/FeedbackVertexSetSolver.java:19-41 | `true` only when the graph has a cycle; `false` finishes the vertex, keeps the stack equal to the path and only adds visited marks |
| FeedbackVertexSetSolver.IsAcyclic | 02-Graph-Algorithms/FeedbackVertexSetSolver.java:47-70 | true exactly when the graph has no cycle, including for no vertices |
| FeedbackVertexSetSolver.RemoveFirst | 02-Graph-Algorithms/FeedbackVertexSetSolver.java:143 | `List.remove` drops one occurrence when there is one and keeps every other element |
| FeedbackVertexSetSolver.RemoveFirstAt | 02-Graph-Algorithms/FeedbackVertexSetSolver.java:143 | when x first occurs at i, removing it leaves the entries before and after i, in order |
| FeedbackVertexSetSolver.RemoveFirstSplits | 02-Graph-Algorithms/FeedbackVertexSetSolver.java:143 | `List.remove` cuts out the first occurrence and keeps the order of everything else |
| FeedbackVertexSetSolver.RemoveVertexEdges | 02-Graph-Algorithms/Graph.java:28-31 | after removing v, an edge remains exactly when it was there and touches neither end at v |
| FeedbackVertexSetSolver.RemoveVertexValid | 02-Graph-Algorithms/Graph.java:28-31 | removing a vertex keeps the vertices distinct and the edges between vertices |
| FeedbackVertexSetSolver.EmptyGraphAcyclic | 02-Graph-Algorithms/FeedbackVertexSetSolver.java:48-51 | a graph with no vertices has no cycle |
| FeedbackVertexSetSolver.DegreeSumsAgree | 02-Graph-Algorithms/Graph.java:18-26 | the in-degrees and the out-degrees of all vertices sum to the same total |
| FeedbackVertexSetSolver.ScoreByDegreeSum | 02-Graph-Algorithms/FeedbackVertexSetSolver.java:78-84 | -1 for a vertex not in the graph; otherwise in-degree plus out-degree, never negative |
| FeedbackVertexSetSolver.ScoreByDegreeProduct32 | 02-Graph-Algorithms/FeedbackVertexSetSolver.java:90-96 | the score as written: -1 for a vertex not in the graph; otherwise an `int` equal to the product of the degrees modulo 2^32; `ProductAgreesInRange` and `ProductWraps` say when it is exact and when it goes negative |
| FeedbackVertexSetSolver.ScoreByDegreeProduct | 02-Graph-Algorithms/FeedbackVertexSetSolver.java:90-96 | the corrected score (see Findings): -1 for a vertex not in the graph; otherwise the exact product of the degrees, never negative |
| FeedbackVertexSetSolver.ProductAgreesInRange | 02-Graph-Algorithms/FeedbackVertexSetSolver.java:95 | when the product fits in an `int`, the 32-bit product is the exact one |
| FeedbackVertexSetSolver.ProductWraps | 02-Graph-Algorithms/FeedbackVertexSetSolver.java:95 | with both degrees 46341 the 32-bit product is negative, below the "not a vertex" score -1, while the exact product is positive |
| FeedbackVertexSetSolver.FirstBestIsFirstMaximum | 02-Graph-Algorithms/FeedbackVertexSetSolver.java:133-139 | the chosen vertex has the highest score and every vertex before it scores strictly less |
| FeedbackVertexSetSolver.SelectVertex | 02-Graph-Algorithms/FeedbackVertexSetSolver.java:129-139 | the scan returns the first vertex with the highest score |
| FeedbackVertexSetSolver.GreedyStep | 02-Graph-Algorithms/FeedbackVertexSetSolver.java:128-147 | while a cycle remains, a round removes the first best vertex and carries on in the reduced graph |
| FeedbackVertexSetSolver.GreedyRemovesVertices | 02-Graph-Algorithms/FeedbackVertexSetSolver.java:142-147 | the removed vertices are distinct vertices of the graph, at most as many as it has |
| FeedbackVertexSetSolver.GreedyBreaksCycles | 02-Graph-Algorithms/FeedbackVertexSetSolver.java:128 | removing the greedy vertices leaves a graph with no cycle |
| FeedbackVertexSetSolver.GreedyDone | 02-Graph-Algorithms/FeedbackVertexSetSolver.java:128 | when the loop stops, the vertices removed so far are the whole greedy sequence |
| FeedbackVertexSetSolver.Solve | 02-Graph-Algorithms/FeedbackVertexSetSolver.java:120-149 | the array's prefix holds the greedy sequence in removal order, the rest is untouched, and the final graph is the input without those vertices |
| TreeReconstruction.LastIndexMapSpec | 03-Tree-Algorithms/TreeReconstruction.java:21-24 | the map's keys are the in-order values, each mapped to its last index; with distinct values value i maps to i |
| TreeReconstruction.BuildInOrderMap | 03-Tree-Algorithms/TreeReconstruction.java:21-24 | the loop builds that value-to-last-index map |
| TreeReconstruction.LayoutPlacesTree | 03-Tree-Algorithms/TreeReconstruction.java:41-63 | every node whose heap index fits holds its value, and every cell not a node's index keeps its old value |
| TreeReconstruction.LayoutUnvisited | 03-Tree-Algorithms/TreeReconstruction.java:45-47 | a cell that is no node's heap index is never written |
| TreeReconstruction.SiblingSubtreesDisjoint | 03-Tree-Algorithms/TreeReconstruction.java:57-63 | the heap subtrees at 2t+1 and 2t+2 share no index, so the two recursive calls write different cells |
| TreeReconstruction.BuildPreHelper | 03-Tree-Algorithms/TreeReconstruction.java:32-64 | the array becomes the heap layout, rooted at treeIndex, of the tree the ranges decode to |
| TreeReconstruction.BuildFromPreOrder | 03-Tree-Algorithms/TreeReconstruction.java:19-30 | the array becomes the heap layout, rooted at 0, of the tree decoded from the full ranges |
| TreeReconstruction.PreSplitStep | 03-Tree-Algorithms/TreeReconstruction.java:50-63 | the root is `preOrder[preStart]`, the left part gets the next leftSize entries and the right part the rest |
| TreeReconstruction.PreOrderRoundTrip | 03-Tree-Algorithms/TreeReconstruction.java:13-30 | for a tree with distinct values, its in-order and pre-order traversals decode to the tree itself |
| TreeReconstruction.BuildPostHelper | 03-Tree-Algorithms/TreeReconstruction.java:84-115 | the array becomes the heap layout, rooted at treeIndex, of the tree the ranges decode to |
| TreeReconstruction.BuildFromPostOrder | 03-Tree-Algorithms/TreeReconstruction.java:72-82 | the array becomes the heap layout, rooted at 0, of the tree decoded from the full ranges |
| TreeReconstruction.PostSplitStep | 03-Tree-Algorithms/TreeReconstruction.java:100-114 | the root is `postOrder[postEnd]`, the left part gets the first leftSize entries and the right part the rest but the last |
| TreeReconstruction.PostOrderRoundTrip | 03-Tree-Algorithms/TreeReconstruction.java:66-82 | for a tree with distinct values, its in-order and post-order traversals decode to the tree itself |
| TreeReconstruction.RightSpineIndex32Exact | 03-Tree-Algorithms/TreeReconstruction.java:63 | down to depth 30 the child index computed in 32 bits is the true heap index |
| TreeReconstruction.RightSpineIndexWraps | 03-Tree-Algorithms/TreeReconstruction.java:45-63 | from depth 31 on the right child's 32-bit index is -2, which passes the guard `treeIndex < tree.length` yet indexes no array |
| TreeReconstruction.RightSpineIndexSkipped | 03-Tree-Algorithms/TreeReconstruction.java:45-47 | with exact indices that node lies past the end of every Java array, so its write is skipped |
| TreeReconstruction.LeftSpineIndex32Exact | 03-Tree-Algorithms/TreeReconstruction.java:57 | down to depth 31 the 32-bit left-spine index is 2^d - 1, exact |
| TreeReconstruction.LeftSpineRightChildWraps | 03-Tree-Algorithms/TreeReconstruction.java:45-63 | the node 31 steps down the left spine sits at `Integer.MAX_VALUE` and is skipped, but its right child's index wraps to 0, which the guard lets through |
| TreeReconstruction.LeftSpineRightChildSkipped | 03-Tree-Algorithms/TreeReconstruction.java:45-47 | with exact indices that right child lies past every Java array, so the root's cell is kept |

## Left out

- `probeQuadratic`, `findClosestPair`, `distanceSq` and `scoreByBalancedFlow` are not modelled because they compute in floating point.
- The heuristics' `double` results are modelled as `int`. The heuristic passed to `solve` is an arbitrary `int`-valued function of the graph and the vertex. `Double.NEGATIVE_INFINITY` is modelled as "no score yet".
- The SAT solver is a foreign call and is not modelled. Its answer is a parameter of `FindExactCover`, both as the raw text and as its white-space-separated tokens, each parsed as an `int` or marked as not an integer.
- The DIMACS text is modelled as a header plus a list of clauses, not as formatted characters. The empty string that signals failure is modelled as `None`.
- The interfaces `Graph`, `HashTable`, `HashTableWithChaining`, `ChainElement`, `Heuristic` and `SatSolver` carry no logic, so they are modelled as state:
  - a graph is its vertex list plus a successor map; a missing entry has no successors, and the in- and out-degree are -1 for a vertex not in the graph;
  - `removeVertex` drops the vertex and every edge touching it;
  - an open-addressing table is an array of optional keys;
  - a chaining table is an array of key lists, head first. Element identity, `next` pointers and aliasing between chain elements are not modelled.
- CollisionResolution.InsertBrentOptimized: requires non-negative keys, because a negative key can give a negative slot index in Java (a negative home slot, or a step of `1 + key % 5` below 1 that takes `j + step` below 0). It also requires `capacity + 5` to fit in an `int`, so that `j + step` cannot wrap.
- CollisionResolution.BrentInsertKeys: does not prove that an insert which uses up every iteration carries the new key itself and leaves the table unchanged. That needs an argument about the probe cycle that the model does not make.
- ProbeLinear and ProbeDoubleHashing compute with 32-bit wrap-around as written. The lemmas about them assume the sums do not wrap.
- CollisionResolution.ProbeLinear: requires `capacity != 0`; Java throws `ArithmeticException` on a zero capacity.
- CollisionResolution.ProbeDoubleHashing: requires `capacity != 0`, for the same reason.
- CollisionResolution.InsertChaining: requires `capacity != 0` (Java throws `ArithmeticException`) and `key % capacity` to index the table. This excludes negative keys, whose negative bucket index the table implementation would reject.
- CollisionResolution.Insert: requires the probe strategy to give a slot of the table for every step below `capacity` (`ProbesInRange`). What the table implementation does with an out-of-range position is not modelled.
- AlgorithmCollection.HasSubsetSum: for a non-negative target, requires non-negative numbers. A negative number makes the inner loop start at `j = targetSum` and read `reachable[j - number]` past the end of the table. It also requires `targetSum + 1` not to overflow.
- ConstrainedLcs.BacktrackingClcs: states the answer's length and feasibility. It does not prove that the table's value is the optimum over all feasible solutions.
- ConstrainedLcs.BacktrackingClcs: requires `dp` to be the table `computeDynamicProgrammingTable` builds for the same strings and constraint. The Java method accepts any `int[][][]`, but it is documented to backtrack from that table; other arrays are not modelled.
- TreeReconstruction.BuildPreHelper: requires `PreSplitDefined`: at every non-empty range, the root is in the map and its in-order index lies inside the current in-order range. For traversals of one tree this holds when the values are distinct (`PreOrderRoundTrip`). The domain also excludes some inputs on which Java returns normally and writes some layout, for example in-order `[1, 2]` with pre-order `[2, 2, 1]`. What Java writes on those is not modelled. `BuildPostHelper` has the same requirement (`PostSplitDefined`), and `TreeReconstruction.BuildFromPreOrder` and `TreeReconstruction.BuildFromPostOrder` require `PreSplitDefined` and `PostSplitDefined` over the full ranges, so they carry the same domain. The in-order array parameter that the helpers never read is dropped.
- TreeReconstruction.Layout: uses exact heap indices. The 32-bit wrap of the child indices is modelled separately (see Findings).
- ExactCoverReductor.FindExactCover: requires every matrix row to have as many columns as the first, and every positive literal to name a set within `chosenSets`. Java would throw otherwise.
- ExactCoverReductor.CalculateTotalClauses: counts with unbounded integers. In Java the product `c * (c - 1)` already wraps for an element in 46342 sets, where the true count is still below 2^31 (see Findings), and the running `int` sum would wrap beyond 2^31 clauses. Both are latent: on such inputs `generateDimacsCNF` must also append over 10^9 clauses of at least 8 characters each to one `StringBuilder`, which cannot hold them, so it fails before any caller sees the header.
- FeedbackVertexSetSolver.Solve: requires the result array to have room for every vertex the greedy loop removes (`|Greedy(g, h)|`); an acyclic graph needs none. On a shorter array Java throws partway through, after writing part of the array; that is not modelled.
- FeedbackVertexSetSolver.ScoreByDegreeSum: uses exact integers; `inDeg + outDeg` overflows only beyond 2^31 edges.
- FeedbackVertexSetSolver.IsAcyclic: requires vertex ids in `[0, Integer.MAX_VALUE)`, so that `maxIDNum + 1` is a valid array size. It also requires distinct vertices and edges between vertices only.
- The possible endless loop of `solve` when no vertex is ever selected cannot occur under these requirements, so it is not modelled. With `int` scores, some vertex always beats the initial minus infinity.

## Findings

| source | as written | input that shows it | evidently intended | confidence | as-written member | corrected member |
|---|---|---|---|---|---|---|
| 03-Tree-Algorithms/TreeReconstruction.java:57-63 | child indices `2 * treeIndex + 1` and `2 * treeIndex + 2` are `int`s; at depth 31 on the right spine the index wraps to -2, which the guard `treeIndex < tree.length` lets through, so the write throws | a right-leaning chain of 32 nodes (each node the right child of the previous), any output array | nodes whose heap index lies past the array are skipped | not executed | TreeReconstruction.RightSpineIndexWraps | TreeReconstruction.RightSpineIndexSkipped |
| 03-Tree-Algorithms/TreeReconstruction.java:57-63 | after 31 left steps the index is `Integer.MAX_VALUE` (skipped by the guard), and its right child `2 * treeIndex + 2` wraps to 0, which the guard lets through, so that node overwrites the root in `tree[0]` | a root with a left-leaning chain of 31 nodes below it whose last node has a right child, any non-empty output array | nodes whose heap index lies past the array are skipped and the root keeps its cell | not executed | TreeReconstruction.LeftSpineRightChildWraps | TreeReconstruction.LeftSpineRightChildSkipped |
| 05-SAT-Reduction/ExactCoverReductor.java:131 | `calculateTotalClauses` takes `setsContainingElement * (setsContainingElement - 1)` as an `int` product, so for an element in 46342 sets the term is negative and the count it returns is wrong. The defect is latent: its only caller, `generateDimacsCNF`, must then also write about 1.07 * 10^9 pair clauses into one `StringBuilder`, which overflows first, so no header with the wrong count is ever returned | 46342 sets that all contain element 0, passed to `calculateTotalClauses` | the count c(c-1)/2 of pair clauses per element, as many as are written | not executed | ExactCoverReductor.PairTerm32Wraps | ExactCoverReductor.HeaderCountMatches |
| 02-Graph-Algorithms/FeedbackVertexSetSolver.java:95 | `inDeg * outDeg` is an `int` product converted to `double` afterwards, so large degrees wrap to a negative score | a vertex with in-degree and out-degree 46341 | the exact product of the degrees as the score | not executed | FeedbackVertexSetSolver.ProductWraps | FeedbackVertexSetSolver.ScoreByDegreeProduct |
