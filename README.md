# Trailblazer routes, Huffman coding and patient queues in Dafny

This project models three parts of a C++ course repository and proves properties of them:

- **Route search** (`Trailblazer.cpp`). It covers breadth-first search, Dijkstra's algorithm and A* over a road graph. It also covers `alternativeRoute`: it runs one search per edge of the primary route with that edge excluded, then picks the cheapest candidate that is different enough, using `isSufficientDiff`, `getCost` and `getBestAltPath`.
- **Huffman coding** (`encoding.cpp`). This is the frequency table and the encoding tree built by merging the two lightest trees. It also covers the code map, the encoder and the bit-by-bit decoder.
- **Three patient priority queues** behind one interface. `HeapPatientQueue` is a 1-indexed binary heap in a growable array. `LinkedListPatientQueue` is a sorted singly linked list. `VectorPatientQueue` is an unsorted vector with timestamps.

How the modules are laid out:

| file | module | models |
|---|---|---|
| `road_graph.dfy` | `RoadGraph` | the graph, walks, edge exclusion and `getCost` |
| `search_frontier.dfy` | `Frontier` | frontier entries, `HashMap::get`, the open neighbours, the termination measure |
| `breadth_first.dfy` | `BreadthFirst` | `breadthFirstSearch` |
| `dijkstra.dfy` | `Dijkstra` | `dijkstrasAlgorithm` and the search inside `alternativeRoute` |
| `a_star.dfy` | `AStar` | `aStar` |
| `alternative_route.dfy` | `Alternatives` | `isSufficientDiff`, `getBestAltPath`, `alternativeRoute` |
| `huffman_tree.dfy` | `HuffmanTree` | `buildFrequencyTable`, `buildEncodingTree`, `isLeaf` |
| `huffman_code.dfy` | `HuffmanCode` | `buildCode`, `buildEncodingMap`, `writeCode`, `encodeData` |
| `huffman_decode.dfy` | `HuffmanDecode` | `decodeData` and the encode/decode round trip |
| `sequences.dfy` | `Sequences` | removing one element from a queue held as a sequence |
| `patient_text.dfy` | `PatientText` | the queues' exceptions, the patient record of the heap and list queues, string `<`, the `toString` text |
| `heap_queue.dfy` | `HeapQueue` | `HeapPatientQueue` |
| `list_queue.dfy` | `ListQueue` | `LinkedListPatientQueue` |
| `vector_queue.dfy` | `VectorQueue` | `VectorPatientQueue` |

## Modelling choices

**The graph**
- Nodes are the numbers `0 .. |neighbors| - 1`.
- Edge costs are natural numbers.
- `edgeBetween` is represented twice: `cost(u, v)` gives its cost, and `edge(u, v)` gives its identity. `alternativeRoute` compares edge identities against the edge it excludes.

**The searches**
- Each search loop is a `while` loop over a queue held as a sequence.
- Dequeuing from `PriorityQueue` picks *some* entry of smallest priority.
- The BFS and Dijkstra loops, including the per-road Dijkstra searches inside `alternativeRoute`, are proved to terminate. The measure is the sum, over queued routes, of `(maxDegree + 1)^(|nodes| - |route|)`.
- A*'s loop, and with it the first search of `alternativeRoute`, is not proved to terminate. It stops only when its `fuel` counter runs out; see the "AStar.AStar:" line under "## Left out".
- A recorded cost of 0 reads as "no cost yet", as in the source.
- `AlternativeRoute` also returns the primary route and each per-edge search result. The C++ function keeps these in local variables. Returning them lets the contract describe each search.

**The patient queues**
- All three are classes whose methods update their fields in place.
- The heap keeps its `array`. The linked list keeps its `PatientNode` objects and `next` pointers, with a ghost sequence of nodes and of patients beside them.
- Exceptions are `Throws` outcomes, one value per message builder.

**Huffman trees**
- A Huffman tree is a value. `Nil` stands for the null pointer, and nodes are never changed once built.
- Bit streams are sequences of `int`.

**Library maps**
- `HashMap::get` is `Frontier.Get` and `Map::get` is `HuffmanCode.Lookup`. For a missing key they return 0 and the empty string. What the defaults cause is stated elsewhere. The `Dijkstra.Relax` row covers the 0 default in a relaxation, and the "AStar.AStar:" line under "## Left out" covers it in A*. The `HuffmanCode.CodesUncoded` row covers the empty code when encoding.

## Model

| member | source | states |
|---|---|---|
| RoadGraph.PathCost | Trailblazer.cpp:41-49 | `getCost`: 0 for a path of fewer than two nodes, and never less than the cost of its first road; its additivity is PathCostSplit |
| RoadGraph.PathCostSplit | Trailblazer.cpp:41-49 | the cost `getCost` adds up, edge by edge along consecutive pairs, is additive when two paths are joined |
| RoadGraph.WalkSnoc | Trailblazer.cpp:109-113 | extending a route by a neighbour keeps it a walk, and adds that edge's cost |
| RoadGraph.ClosedWalk | Trailblazer.cpp:94-120 | a walk from inside a set closed under steps ends inside it; this is why an exhausted search proves `end` unreachable |
| RoadGraph.DistinctBounded | Trailblazer.cpp:103-117 | a route without repeated nodes has at most as many nodes as the graph |
| Frontier.RealisedExtend | Trailblazer.cpp:156-163 | recording the cost of a walk extended by one edge keeps every recorded cost the cost of some walk from the start |
| Frontier.TrackedExtend | Trailblazer.cpp:103-117 | a queued route extended to an unvisited neighbour is again a repetition-free walk from the start whose inner nodes are all visited |
| Frontier.TrackedBounded | Trailblazer.cpp:103-117 | a queued route never has more nodes than the graph |
| Frontier.Open | Trailblazer.cpp:145-147 | the neighbours a round extends to are exactly the listed neighbours that are unvisited and not over the excluded edge |
| Frontier.Extensions | Trailblazer.cpp:109-113 | the routes enqueued are the current route extended by each open neighbour, in neighbour order |
| Frontier.MinExists | Trailblazer.cpp:133-135 | a non-empty priority queue has an entry of smallest priority to dequeue |
| Frontier.QueueExtensionsLighter | Trailblazer.cpp:103-117 | the routes one BFS expansion enqueues weigh less than the route dequeued, so the loop ends |
| Frontier.PqExtensionsLighter | Trailblazer.cpp:145-167 | the priority-queue version of the same, for Dijkstra's loop |
| BreadthFirst.BreadthFirstSearch | Trailblazer.cpp:84-121 | a non-empty result is a repetition-free walk from start to end with the fewest nodes of all such walks; an empty result means no walk exists |
| BreadthFirst.EnqueueUnvisited | Trailblazer.cpp:103-116 | the inner loop appends the current route extended to each unvisited neighbour, in order |
| BreadthFirst.FewestNodes | Trailblazer.cpp:100-101 | when `end` is dequeued, no walk from start to end is shorter than its route |
| BreadthFirst.WalkLevels | Trailblazer.cpp:94-118 | the i-th node of any walk from start has been reached within i + 1 nodes, unless the front route is already that short |
| BreadthFirst.ReachedWeaker | Trailblazer.cpp:94-118 | being reached within b nodes implies being reached within any larger bound |
| BreadthFirst.ExpandKeepsState | Trailblazer.cpp:94-118 | a round that does not dequeue `end` keeps the loop invariant, with the dequeued node now expanded |
| BreadthFirst.TrackedKept | Trailblazer.cpp:103-117 | after a round every queued route is still a tracked walk under the grown visited set |
| BreadthFirst.ClosedKept | Trailblazer.cpp:103-117 | after a round every expanded node's neighbours are still reached within one more node |
| BreadthFirst.ExpandedNeighbour | Trailblazer.cpp:103-117 | a neighbour of a node expanded for the first time is reached within one more node |
| BreadthFirst.ReachedKept | Trailblazer.cpp:96-117 | what was reached before a round stays reached after it |
| BreadthFirst.LayeredKept | Trailblazer.cpp:96-113 | the FIFO queue stays sorted by route length, with lengths within one node of the front |
| BreadthFirst.WeightDrops | Trailblazer.cpp:94-118 | every round lowers the termination measure |
| BreadthFirst.ReplaceFront | Trailblazer.cpp:96-113 | replacing the front entry by lighter entries lowers the queue's weight |
| Dijkstra.Relax | Trailblazer.cpp:156-165 | the relaxation records the new cost when none was recorded (0) or when it is smaller; the priority enqueued equals the cost recorded right after |
| Dijkstra.RelaxRealised | Trailblazer.cpp:156-163 | after a relaxation every recorded cost is still the cost of a walk from the start |
| Dijkstra.Search | Trailblazer.cpp:123-172 | a non-empty result is a repetition-free walk from start to end that avoids the excluded edge; an empty result means none exists |
| Dijkstra.DijkstrasAlgorithm | Trailblazer.cpp:123-172 | the same with no excluded edge |
| Dijkstra.RelaxNeighbours | Trailblazer.cpp:145-167 | the inner loop appends exactly the extensions to open neighbours; each priority is at most that route's cost; no recorded cost is lost; recorded costs stay realised |
| Dijkstra.PrioritiesSnoc | Trailblazer.cpp:156-165 | one more relaxed entry keeps every enqueued priority bounded by its route's cost |
| Dijkstra.EntriesSnoc | Trailblazer.cpp:151-165 | one more enqueued entry extends the enqueued routes by one open neighbour |
| Dijkstra.ExtendedEntry | Trailblazer.cpp:133-167 | an entry after a round is one that was waiting, or an extension of the dequeued route |
| Dijkstra.RoundKeepsState | Trailblazer.cpp:133-169 | a round that does not dequeue `end` keeps the loop invariant and lowers the measure |
| Dijkstra.TrackedRound | Trailblazer.cpp:145-168 | after a round every queued route is still a tracked walk |
| Dijkstra.ClosedRound | Trailblazer.cpp:145-168 | after a round every expanded node's neighbours are visited or queued |
| Dijkstra.HasQueuedKept | Trailblazer.cpp:135-165 | entries other than the dequeued one stay queued |
| Dijkstra.WithoutWeight | Trailblazer.cpp:135 | dequeuing an entry takes exactly its weight off the queue |
| Dijkstra.PqWeightDrops | Trailblazer.cpp:133-169 | every round lowers the termination measure |
| AStar.Expansion | Trailblazer.cpp:200-224 | the reference for A*'s neighbour loop, as a fold over the neighbours: never more entries than neighbours, and no recorded cost is dropped; ExpansionEntries, ExpansionCovers and ExpansionRealised state the rest |
| AStar.ExpansionEntries | Trailblazer.cpp:200-224 | each entry an expansion enqueues extends the route by a neighbour with a recorded cost, with priority g + h |
| AStar.ExpansionCovers | Trailblazer.cpp:200-224 | every neighbour is visited or gets an entry |
| AStar.ExpansionRealised | Trailblazer.cpp:200-224 | every cost an expansion records is the cost of a walk from the start |
| AStar.ExpandNeighbours | Trailblazer.cpp:200-224 | the neighbour loop enqueues and records exactly what the expansion prescribes, skipping visited nodes whose recorded cost is not beaten |
| AStar.AStar | Trailblazer.cpp:174-228 | a route found is a walk from start to end; an empty route means none exists; it may run out of its bound of rounds |
| AStar.RoundKeepsState | Trailblazer.cpp:187-225 | a round that does not dequeue `end` keeps the loop invariant |
| AStar.EntriesKept | Trailblazer.cpp:187-224 | after a round every queued route is a walk from the start to a node with a recorded cost |
| AStar.QueuedKept | Trailblazer.cpp:189-223 | entries other than the dequeued one, and all new entries, are queued after a round |
| Alternatives.Diff | Trailblazer.cpp:27-32 | the count of primary-route entries missing from the path is 0 exactly when all occur in it, and never exceeds the primary route's length |
| Alternatives.IsSufficientDiff | Trailblazer.cpp:25-38 | `isSufficientDiff` as `5 * diff > |path|`: a sufficient path avoids some entry of the primary route, and a path containing every entry never passes; SufficientDiffRatio ties it to the source's division |
| Alternatives.SufficientDiffRatio | Trailblazer.cpp:25-38 | `5 * diff > |path|` agrees with the source's `diff / |path| > 0.2`, including for an empty path |
| Alternatives.QuotientAboveFifth | Trailblazer.cpp:34 | over the reals, `d / n > 0.2` iff `5d > n` for positive n |
| Alternatives.Sufficient | Trailblazer.cpp:55-63 | the filtered candidates are never more than the candidates |
| Alternatives.SufficientMembers | Trailblazer.cpp:55-63 | a candidate survives iff it passes `isSufficientDiff` |
| Alternatives.SufficientAppend | Trailblazer.cpp:55-63 | filtering distributes over concatenation, so survivors keep their relative order |
| Alternatives.RemoveInsufficient | Trailblazer.cpp:55-63 | the in-place removal loop leaves exactly the candidates that pass, in order |
| Alternatives.CheapestIndex | Trailblazer.cpp:68-79 | the running minimum is a cheapest path, and strictly cheaper than every earlier one |
| Alternatives.GetBestAltPath | Trailblazer.cpp:52-82 | empty when nothing survives; otherwise a survivor no costlier than any survivor, the earliest on ties |
| Alternatives.Found | Trailblazer.cpp:262-266 | the candidates collected are exactly the non-empty search results |
| Alternatives.RouteAdded | Trailblazer.cpp:237-296 | one more search keeps the candidates equal to the non-empty results so far, each one from the search without its own edge |
| Alternatives.AlternativeRoute | Trailblazer.cpp:230-300 | one search per edge of the primary route, each result avoiding that edge; empty when the primary route is empty; the result is the cheapest sufficiently different candidate |
| HuffmanTree.IsLeaf | encoding.cpp:227-232 | `isLeaf`: a leaf carries exactly one (character, count) pair; in a tree built by merging, a non-leaf has both children and stands for NOT_A_CHAR |
| HuffmanTree.BuildFrequencyTable | encoding.cpp:20-36 | every input byte maps to its number of occurrences, PSEUDO_EOF maps to 1, and there are no other keys |
| HuffmanTree.LightestExists | encoding.cpp:63-64 | a non-empty queue of trees has a lightest tree to dequeue |
| HuffmanTree.BuildEncodingTree | encoding.cpp:41-77 | no tree exactly for an empty table; otherwise every table entry is a leaf exactly once with its count, inner nodes have both children and sum their counts, and the root counts the total |
| HuffmanTree.LeafQueue | encoding.cpp:50-57 | the first loop queues one leaf per table entry |
| HuffmanTree.LeafAdded | encoding.cpp:54-56 | queuing one more entry's leaf matches one more table entry |
| HuffmanTree.ForestAppend | encoding.cpp:60-71 | the leaves of a queue are the leaves of its parts |
| HuffmanTree.ForestWithout | encoding.cpp:63-64 | dequeuing a tree takes exactly its leaves out of the queue's leaves |
| HuffmanTree.MergeKeepsLeaves | encoding.cpp:60-71 | merging the two dequeued trees keeps the queue's leaves |
| HuffmanTree.MergeKeepsBuilt | encoding.cpp:60-71 | the merged node has both children and their summed count |
| HuffmanTree.CountIsTotal | encoding.cpp:66-68 | a tree built by merging counts what its leaves count together |
| HuffmanCode.PathReaches | encoding.cpp:199-214 | in a tree without repeated characters, the zero/one steps to a leaf lead to it |
| HuffmanCode.BuildCode | encoding.cpp:199-214 | `buildCode`: the map afterwards has the old keys plus exactly the characters of the leaves below the node; BuildCodeSpec states the codes themselves |
| HuffmanCode.BuildEncodingMap | encoding.cpp:81-90 | `buildEncodingMap`: the keys are exactly the leaf characters, and no key at all for no tree; EncodingMapCodes and EncodingMapPrefixFree state the codes |
| HuffmanCode.BuildCodeSpec | encoding.cpp:199-214 | `buildCode` adds exactly the leaf characters, each with the prefix plus its steps, and leaves other entries alone |
| HuffmanCode.EncodingMapCodes | encoding.cpp:81-90 | the map's keys are exactly the leaf characters, and each code leads from the root to that leaf |
| HuffmanCode.ReachesPrefix | encoding.cpp:129-141 | a code leading to a leaf that is a prefix of another such code is that code |
| HuffmanCode.EncodingMapPrefixFree | encoding.cpp:199-214 | no character's code is a prefix of another character's code |
| HuffmanCode.BitsAppend | encoding.cpp:217-224 | the bits of joined codes are the joined bits |
| HuffmanCode.WriteCode | encoding.cpp:217-224 | one bit per code digit is appended, `digit - '0'` |
| HuffmanCode.CodesSnoc | encoding.cpp:99-104 | encoding one more byte appends its code |
| HuffmanCode.CodesUncoded | encoding.cpp:99-104 | bytes with no code in the map, which `Map::get` answers with the empty string, write no bits |
| HuffmanCode.EncodeData | encoding.cpp:95-109 | the output is the codes of the input bytes in order, then the code of PSEUDO_EOF |
| HuffmanDecode.DecodeFrom | encoding.cpp:114-144 | the reference for decodeData's loop from a given node: a successful decoding only appends to what was already written; DecodeCode, DecodeCodes and RoundTrip state what it appends |
| HuffmanDecode.DecodeData | encoding.cpp:114-144 | the decoding loop produces what the walk-and-reset decoding prescribes, including the null-pointer and endless outcomes |
| HuffmanDecode.DecodeCode | encoding.cpp:118-142 | reading a code from the root ends at its leaf, writing its character and restarting, or stopping at PSEUDO_EOF |
| HuffmanDecode.DecodeCodes | encoding.cpp:114-144 | decoding the codes of a byte string and of PSEUDO_EOF yields that string |
| HuffmanDecode.CodeLeadsToLeaf | encoding.cpp:81-90 | each leaf character has a code, and it leads to its leaf |
| HuffmanDecode.RoundTrip | encoding.cpp:95-144 | decoding what `encodeData` writes with the same tree gives back the input |
| HuffmanDecode.CharOfLeaf | encoding.cpp:199-205 | the character of a leaf is a leaf character |
| HuffmanDecode.LeafOfChar | encoding.cpp:199-205 | a leaf character belongs to some leaf |
| HuffmanDecode.AtMostOnceSplit | encoding.cpp:60-71 | leaves appearing at most once split into two such halves with no shared leaf |
| HuffmanDecode.SameCharSamePair | encoding.cpp:50-57 | two leaves with the same character are the same table entry |
| HuffmanDecode.UniqueWhenAtMostOnce | encoding.cpp:41-77 | a tree whose leaves are distinct table entries has no character on two leaves |
| HuffmanDecode.TreeOfTable | encoding.cpp:41-77 | the leaf characters of the built tree are exactly the table's keys, each on one leaf |
| HuffmanDecode.CompressedRoundTrip | encoding.cpp:147-181 | table, tree, encoding and decoding together give back the input |
| PatientText.NameLessIrreflexive | HeapPatientQueue.cpp:196 | no name is less than itself |
| PatientText.NameLessTransitive | HeapPatientQueue.cpp:196 | string `<` is transitive |
| PatientText.NameLessTotal | HeapPatientQueue.cpp:196 | of two different names one is less |
| PatientText.NameLessAsymmetric | HeapPatientQueue.cpp:196 | string `<` is asymmetric |
| PatientText.Digits | HeapPatientQueue.cpp:118 | a number prints as a non-empty string starting with a digit |
| PatientText.DigitsRoundTrip | HeapPatientQueue.cpp:118 | reading back the printed digits gives the number |
| PatientText.IntToString | HeapPatientQueue.cpp:118 | the printed `int` starts with '-' exactly when negative |
| PatientText.BracedEmpty | HeapPatientQueue.cpp:113-114 | the text is "{}" exactly when there are no entries |
| PatientText.OpenTextStep | HeapPatientQueue.cpp:121-124 | each loop step appends ", " and the next entry |
| PatientText.JoinedSnoc | HeapPatientQueue.cpp:121-124 | joining one more entry appends ", " and it |
| HeapQueue.PrecedesIrreflexive | HeapPatientQueue.cpp:188-200 | `compare` is irreflexive |
| HeapQueue.PrecedesAsymmetric | HeapPatientQueue.cpp:188-200 | `compare` is asymmetric |
| HeapQueue.PrecedesTransitive | HeapPatientQueue.cpp:188-200 | `compare` is transitive |
| HeapQueue.PrecedesTotal | HeapPatientQueue.cpp:188-200 | of two different patients one compares less |
| HeapQueue.NotPrecedesTransitive | HeapPatientQueue.cpp:188-200 | "not more urgent" is transitive |
| HeapQueue.SubtreeSplit | HeapPatientQueue.cpp:211-212 | a subtree is its root and its children's subtrees |
| HeapQueue.RootSubtree | HeapPatientQueue.cpp:96 | every slot is in the root's subtree |
| HeapQueue.SubtreeMin | HeapPatientQueue.cpp:152-185 | in a heap no slot of a subtree is more urgent than its root |
| HeapQueue.HeapRootMin | HeapPatientQueue.cpp:36-50 | slot 1 of a heap is a most urgent element |
| HeapQueue.SiftUpStep | HeapPatientQueue.cpp:152-162 | one `moveUp` swap moves the order violation up to the parent |
| HeapQueue.SiftDownStep | HeapPatientQueue.cpp:165-185 | one `moveDown` swap with the more urgent child moves the violation down |
| HeapQueue.ChildrenAfterUpgrade | HeapPatientQueue.cpp:104-106 | a more urgent value in a slot breaks heap order only towards its parent |
| HeapQueue.NewLastSlot | HeapPatientQueue.cpp:62-68 | a patient in a new last slot breaks heap order only towards its parent, and adds itself to the contents |
| HeapQueue.LastToRoot | HeapPatientQueue.cpp:81-85 | moving the last slot to the root breaks order only below the root and drops the old root |
| HeapQueue.LastToRootContents | HeapPatientQueue.cpp:81-83 | the swap and shrink remove exactly the old root from the contents |
| HeapQueue.SwapKeepsContents | HeapPatientQueue.cpp:159 | swapping two slots keeps the contents |
| HeapQueue.UpdateContents | HeapPatientQueue.cpp:104 | overwriting a slot replaces one element of the contents |
| HeapQueue.HeapPatientQueue.constructor | HeapPatientQueue.cpp:15-18 | an empty heap with no capacity |
| HeapQueue.HeapPatientQueue.Clear | HeapPatientQueue.cpp:27-32 | count and capacity 0, no contents |
| HeapQueue.HeapPatientQueue.IsEmpty | HeapPatientQueue.cpp:52-57 | true exactly when the queue holds no patient (and so exactly when count is 0) |
| HeapQueue.HeapPatientQueue.FrontName | HeapPatientQueue.cpp:36-41 | throws when empty; otherwise slot 1's name, a most urgent patient |
| HeapQueue.HeapPatientQueue.FrontPriority | HeapPatientQueue.cpp:45-50 | throws when empty; otherwise slot 1's priority, the smallest |
| HeapQueue.HeapPatientQueue.NewPatient | HeapPatientQueue.cpp:60-69 | adds exactly the new patient, keeps heap order, and count < capacity afterwards |
| HeapQueue.HeapPatientQueue.PutLast | HeapPatientQueue.cpp:62-66 | grows the array when full and puts the patient in the new last slot |
| HeapQueue.HeapPatientQueue.ProcessPatient | HeapPatientQueue.cpp:74-88 | throws when empty; otherwise returns the root's name, removes exactly the root, keeps heap order |
| HeapQueue.HeapPatientQueue.DetachRoot | HeapPatientQueue.cpp:79-83 | moves the last slot to the root and drops the old root |
| HeapQueue.HeapPatientQueue.UpgradePatient | HeapPatientQueue.cpp:94-107 | throws for a missing name or a priority not more urgent, changing nothing; otherwise swaps the found patient for the upgraded one and keeps heap order |
| HeapQueue.HeapPatientQueue.Raise | HeapPatientQueue.cpp:104-106 | the found slot takes the new priority and is sifted up |
| HeapQueue.HeapPatientQueue.Overwrite | HeapPatientQueue.cpp:104 | writes the upgraded patient; order may break only above it |
| HeapQueue.HeapPatientQueue.ToString | HeapPatientQueue.cpp:111-128 | "{}" when empty, else "p:name" for slots 1..count joined by ", " in braces |
| HeapQueue.HeapPatientQueue.Expand | HeapPatientQueue.cpp:131-149 | capacity 0 becomes 2, otherwise doubles; slots 1..count-1 are copied |
| HeapQueue.HeapPatientQueue.MoveUp | HeapPatientQueue.cpp:152-162 | restores heap order from a violation at `child`, keeping the contents |
| HeapQueue.HeapPatientQueue.MoveDown | HeapPatientQueue.cpp:165-185 | restores heap order from a violation below `parent`, keeping the contents |
| HeapQueue.HeapPatientQueue.Compare | HeapPatientQueue.cpp:188-200 | `compare(p1, p2)`: slot p1 is more urgent (Precedes: smaller priority, then smaller name); a more urgent slot never has the larger priority and the reverse comparison is false; the Precedes lemmas make it a strict total order |
| HeapQueue.HeapPatientQueue.Swap | HeapPatientQueue.cpp:159 | exchanges two slots, keeping the contents |
| HeapQueue.HeapPatientQueue.FindName | HeapPatientQueue.cpp:203-228 | 0 iff no slot of the subtree holds the name; otherwise a slot holding it that is most urgent among those |
| HeapQueue.HeapPatientQueue.SubtreeMinAll | HeapPatientQueue.cpp:208-209 | a subtree's root is no less urgent than any slot of the subtree |
| HeapQueue.HeapPatientQueue.FindNameSplit | HeapPatientQueue.cpp:211-227 | combining the children's answers gives the subtree's answer |
| HeapQueue.HeapPatientQueue.SubtreeSplitAll | HeapPatientQueue.cpp:211-212 | a subtree is its root and its children's subtrees |
| HeapQueue.HeapPatientQueue.FindNameWhole | HeapPatientQueue.cpp:96-98 | `findName(name, 1)` is 0 iff no slot holds the name, else a most urgent slot holding it |
| ListQueue.SortedOrdered | LinkedListPatientQueue.cpp:64-152 | sorted neighbour by neighbour iff sorted pair by pair |
| ListQueue.AbovePos | LinkedListPatientQueue.cpp:193-204 | the first position from k on whose priority exceeds p |
| ListQueue.InsertPos | LinkedListPatientQueue.cpp:64-86 | the new node goes after every leading node of priority not above its own, before the first greater one |
| ListQueue.FirstNamed | LinkedListPatientQueue.cpp:178-189 | the first position from `from` on holding the name, or -1 when none does |
| ListQueue.Upgraded | LinkedListPatientQueue.cpp:109-152 | an upgrade keeps the number of patients |
| ListQueue.InsertPosUnique | LinkedListPatientQueue.cpp:64-86 | in a sorted list the insertion point is the only position that keeps it sorted |
| ListQueue.InsertedSorted | LinkedListPatientQueue.cpp:64-86 | linking in keeps the list sorted and adds exactly the new patient |
| ListQueue.InsertedKeepsOrder | LinkedListPatientQueue.cpp:64-86 | linking in keeps every pair ordered |
| ListQueue.InsertedAt | LinkedListPatientQueue.cpp:64-86 | the others keep their order around the new node |
| ListQueue.InsertedBehindEquals | LinkedListPatientQueue.cpp:78-85 | equal priorities leave in arrival order: the new patient goes behind them |
| ListQueue.RemovedSorted | LinkedListPatientQueue.cpp:134-135 | unlinking keeps the list sorted and removes exactly that patient |
| ListQueue.RemovedContents | LinkedListPatientQueue.cpp:134-135 | unlinking removes exactly that patient |
| ListQueue.RemovedKeepsOrder | LinkedListPatientQueue.cpp:134-135 | unlinking keeps every pair ordered |
| ListQueue.UpgradedSorted | LinkedListPatientQueue.cpp:109-152 | an upgrade keeps the list sorted and swaps the old patient for the upgraded one |
| ListQueue.FrontLowered | LinkedListPatientQueue.cpp:114-118 | lowering the front priority keeps the list sorted |
| ListQueue.PatientNode.constructor | LinkedListPatientQueue.cpp:66 | a new unlinked node with the given name and priority |
| ListQueue.DistinctInsert | LinkedListPatientQueue.cpp:83-84 | linking a new node in keeps the nodes distinct |
| ListQueue.DistinctRemove | LinkedListPatientQueue.cpp:135 | unlinking keeps the nodes distinct and the node leaves the list |
| ListQueue.RemovedWithin | LinkedListPatientQueue.cpp:135 | unlinking adds no node |
| ListQueue.HoldsInsert | LinkedListPatientQueue.cpp:83-84 | linking a node in adds its patient at the same position |
| ListQueue.HoldsRemove | LinkedListPatientQueue.cpp:135 | unlinking a node removes its patient |
| ListQueue.DropFront | LinkedListPatientQueue.cpp:96-100 | dropping the front node leaves a well-formed sorted list |
| ListQueue.LinkedListPatientQueue.constructor | LinkedListPatientQueue.cpp:14-17 | an empty list |
| ListQueue.LinkedListPatientQueue.Clear | LinkedListPatientQueue.cpp:26-35 | unlinks nodes until the list is empty |
| ListQueue.LinkedListPatientQueue.IsEmpty | LinkedListPatientQueue.cpp:58-61 | true exactly when there is no patient |
| ListQueue.LinkedListPatientQueue.FrontName | LinkedListPatientQueue.cpp:39-45 | throws when empty; otherwise the front name, which has the smallest priority |
| ListQueue.LinkedListPatientQueue.FrontPriority | LinkedListPatientQueue.cpp:49-54 | throws when empty; otherwise the front priority, the smallest |
| ListQueue.LinkedListPatientQueue.NewPatient | LinkedListPatientQueue.cpp:64-86 | the list becomes the old one with the new patient at its insertion point, still sorted |
| ListQueue.LinkedListPatientQueue.ProcessPatient | LinkedListPatientQueue.cpp:91-103 | throws when empty; otherwise returns the front name and removes only the front |
| ListQueue.LinkedListPatientQueue.UpgradePatient | LinkedListPatientQueue.cpp:109-152 | throws for no such name or a priority not more urgent, changing nothing; otherwise the list is the upgraded one, still sorted |
| ListQueue.LinkedListPatientQueue.Relink | LinkedListPatientQueue.cpp:128-150 | unlinks the node, gives it the new priority and links it in at its new place |
| ListQueue.LinkedListPatientQueue.Detach | LinkedListPatientQueue.cpp:134-136 | unlinks the node and gives it the new priority |
| ListQueue.LinkedListPatientQueue.Retune | LinkedListPatientQueue.cpp:136 | a node outside the list takes the new priority; the list is untouched |
| ListQueue.LinkedListPatientQueue.SetFrontPriority | LinkedListPatientQueue.cpp:114-118 | the front takes the lower priority in place; the list stays sorted |
| ListQueue.LinkedListPatientQueue.Unlink | LinkedListPatientQueue.cpp:135 | removes exactly the node after `before`, keeping the list well formed |
| ListQueue.LinkedListPatientQueue.Bypass | LinkedListPatientQueue.cpp:135 | the pointer update alone keeps the chain linked |
| ListQueue.LinkedListPatientQueue.Place | LinkedListPatientQueue.cpp:68-85 | links a node in at the place its priority calls for |
| ListQueue.LinkedListPatientQueue.LinkFront | LinkedListPatientQueue.cpp:72-77 | a node of smaller priority than the front becomes the front |
| ListQueue.LinkedListPatientQueue.LinkAfter | LinkedListPatientQueue.cpp:78-85 | a node linked after the found node lands at its insertion point |
| ListQueue.LinkedListPatientQueue.Prepend | LinkedListPatientQueue.cpp:75-76 | the pointer updates put the node in front and keep the chain linked |
| ListQueue.LinkedListPatientQueue.Splice | LinkedListPatientQueue.cpp:83-84 | the pointer updates put the node after `before` and keep the chain linked |
| ListQueue.LinkedListPatientQueue.FindBeforeName | LinkedListPatientQueue.cpp:178-189 | the node before the first non-front node holding the name, or null |
| ListQueue.LinkedListPatientQueue.FindBeforePriority | LinkedListPatientQueue.cpp:193-204 | the node just before the first node of greater priority, or the last node |
| ListQueue.LinkedListPatientQueue.ToString | LinkedListPatientQueue.cpp:156-174 | "{}" when empty, else the entries in list order joined by ", " in braces |
| VectorQueue.MostUrgentIndex | VectorPatientQueue.cpp:131-148 | the first index with the smallest (priority, timestamp) |
| VectorQueue.NameIndex | VectorPatientQueue.cpp:151-178 | NOT_FOUND iff the name is absent; otherwise the first entry of that name with the smallest (priority, timestamp) |
| VectorQueue.MostUrgentIsStrict | VectorPatientQueue.cpp:131-148 | with distinct timestamps the most urgent entry precedes every other |
| VectorQueue.VectorPatientQueue.constructor | VectorPatientQueue.cpp:14-17 | an empty vector and timestamp 0 |
| VectorQueue.VectorPatientQueue.Clear | VectorPatientQueue.cpp:25-29 | empties the vector and resets the timestamp |
| VectorQueue.VectorPatientQueue.IsEmpty | VectorPatientQueue.cpp:53-56 | true exactly when the vector is empty |
| VectorQueue.VectorPatientQueue.FindMostUrgent | VectorPatientQueue.cpp:131-148 | the scan ends on the most urgent index |
| VectorQueue.VectorPatientQueue.FrontName | VectorPatientQueue.cpp:33-39 | throws when empty; otherwise the most urgent entry's name |
| VectorQueue.VectorPatientQueue.FrontPriority | VectorPatientQueue.cpp:43-49 | throws when empty; otherwise the most urgent entry's priority |
| VectorQueue.VectorPatientQueue.NewPatient | VectorPatientQueue.cpp:59-66 | appends the patient with the next timestamp, greater than every stored one |
| VectorQueue.VectorPatientQueue.ProcessPatient | VectorPatientQueue.cpp:71-83 | throws when empty; otherwise returns the most urgent name and removes only that entry, the rest in order |
| VectorQueue.VectorPatientQueue.UpgradePatient | VectorPatientQueue.cpp:89-102 | throws for a missing name or a priority not more urgent, changing nothing; otherwise only the found entry changes, with the new priority and a timestamp above all others |
| VectorQueue.VectorPatientQueue.FindName | VectorPatientQueue.cpp:151-178 | the scan ends on the index `NameIndex` describes |
| VectorQueue.VectorPatientQueue.ToString | VectorPatientQueue.cpp:106-128 | "{}" when empty, else entries in vector order joined by ", " in braces |

## Left out

**Route search**
- Floating-point costs and distances. Edge costs, recorded costs and priorities are natural numbers, and the heuristic is an abstract function to naturals. The start's seed priority is a separate parameter, because the source computes it without dividing by the maximum road speed.
- Graphs with roads from a node to itself. BFS, Dijkstra and `alternativeRoute` are modelled on graphs without them. A* does not need this restriction.
- `setColor` calls. They are display side effects only.
- A*'s later `fMap` writes. `fMap` is read once, at Trailblazer.cpp:184, as the start's seed priority; that is the model's `seed` parameter. The writes at Trailblazer.cpp:221 are never read, so they are not modelled.
- Tie-breaking among equal priorities in `PriorityQueue`. The model dequeues some entry of smallest priority. `Queue` order is modelled exactly.
- Edge identity. `edgeBetween` returns a pointer, and the model compares a natural-number identity instead.
- Dijkstra.Relax: states, per relaxation, that a nonzero recorded cost never grows. It does not claim that a recorded cost only ever decreases, because the source breaks that: a genuine cost of 0 reads as "no cost yet" and can be overwritten by a larger one.
- Dijkstra.Search: does not claim the route is cheapest. Extended routes are enqueued with `min(newCost, oldCost)`, so a route's cost can exceed its priority.
- AStar.AStar: is bounded by `fuel` rounds and returns `OutOfFuel` when the bound runs out. The source loop need not stop: with 0 read as "no cost yet" and a road of cost 0 from the start to a node `a`, with `end` unreachable, `s` and `a` keep re-entering the queue through Trailblazer.cpp:198-223.
  - Every ensures of AStar.AStar is guarded by `r.Done?`, so nothing is promised about a run that exhausts its fuel. A body that only returns `OutOfFuel` meets the contract.
  - AlternativeRoute inherits this and promises nothing but an empty list of searches on `OutOfFuel`.
  - What happens beyond the bound is not modelled.
- AStar.AStar: does not claim the route is repetition-free. A* re-enqueues visited nodes whose recorded cost is beaten.

**Huffman coding**
- Tie-breaking of the library priority queue in `buildEncodingTree`. Any lightest tree may be taken.
- Map iteration order in `buildEncodingTree`. Leaves are queued in any order.
- `HuffmanNode.h` is not part of this model. The constants are taken as PSEUDO_EOF = 256 and NOT_A_CHAR = 257.
- Stream I/O. This covers the header written by `output << freqTable` and read by `input >> freqTable`, `rewindStream`, and `obitstream`/`ibitstream`. Inputs are byte sequences and bit streams are sequences of `int`. CompressedRoundTrip assumes that both sides build the same tree from the same table.
- `writeBit`'s handling of values other than 0 and 1. WriteCode writes `digit - '0'` as is.
- `readBit` at end of stream. It is modelled as leaving the walk where it is, so decodeData either stops or never returns (`Unterminated`).
- `freeTree`, destructors and `delete`. These are memory management only.
- `output << static_cast<char>(ch)`. It writes the low eight bits of the character.

**Patient queues**
- The text of the exception messages. Each message builder is one `QueueError` value.
- `PatientNode`'s `operator<<` is not part of this model. The list prints entries as "priority:name", like the other two queues.
- C++ `int` overflow of the vector's timestamp counter and of priorities. Integers are unbounded.
- Raw memory. The heap's slot 0 is unused and is never read. The source's `new`/`delete[]` become fresh Dafny arrays and objects.
