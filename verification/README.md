# Verified model of the Loro/Grafeo bridge

The repository keeps a CRDT document (Loro) and a graph store (Grafeo) in step. This
project models its self-contained algorithms and protocol steps in Dafny and proves
what they promise over all inputs, all runs and all interleavings.

Code that updates things in place is modelled by classes, methods and loops over the
same fields, arrays, stacks and queues. Each method is proved against a specification
function or states the promised property outright; the laws are lemmas about those
functions.

- Text merge: `Lines`, `Lcs` (the dynamic-programming matcher), `Pieces`, `Alignments`
  (how a side lines up with the base), `TextMerge`.
- Acyclicity: `Graphs` (reachability over finite edge sets), `ParentChains`,
  `ThreeColourDfs` (the invariant both iterative searches share), `EdgeBatch`,
  `Observability`, `CycleGuards`, `RootTrackers`, `TreeMoves`,
  `SingleParents` (the edges themselves), `ConcurrentMoves` (moves decided on stale
  snapshots), `TreeAdapters`.
- Full-text search: `Tokens`, `Sorted`, `PostingLists`, `InvertedIndexes`, `Search`.
- Bridge protocol: `Bridge` (id maps, operations as steps), `BridgeApply` (the same on a
  mutable session), `Replay` (what the operations mean, without ids),
  `FailedBatches`, `Batching`, `EchoFilter` (commits, polls and filters as a state
  machine).
- `MemoryCeilings`, `ShadowStore`, `Hydration`, `Values`.

`dafny verify dfyconfig.toml` checks everything.

## Where the code does less, or more, than its comments say

The model follows the code.

- src/schema/tree.rs:334-335 says the committed graph is always acyclic. For concurrent
  moves it is not: `ConcurrentMoves.StaleMovesCanCycle` is an example,
  `ConcurrentMoves.ThreeStaleMovesCanCycle` one that no pair shows, and
  `ConcurrentMoves.StaleMovesAcyclicIff` the exact condition. Serial moves are safe.
- src/schema/tree.rs:469 speaks of CHILD edges; the pre-check at line 524 follows
  incoming edges of every label, which can refuse a safe move
  (`TreeMoves.RefusedForAnotherLabel`).
- src/schema/tree.rs:159-160 says a cycle bound without a check is still detected later.
  The upward walk may instead never end (`CycleGuards.EveryWalkEndsIffAcyclic`,
  `CycleGuards.UncheckedCycleLoops`).
- src/schema/mod.rs:144 and the field comment promise registered roots only;
  `on_edge_removed` also makes unregistered nodes roots
  (`RootTrackers.TrackerFollowsGuard`).
- src/observability/mod.rs:219 says the bijection check is skipped if either list is
  empty; it is skipped only if both are. Line 183 says epochs strictly increase; equal
  neighbours pass. Only one of the two key lists is checked for repetitions.
- src/runtime/mod.rs:302-303 speaks of a clamped subtraction in `evict_idle`; only the
  returned number is clamped, the counter wraps (`MemoryCeilings.Ceiling.EvictIdleExact`).
- src/bridge/batcher.rs:309-315 commits and then records the epoch, in two steps; an
  event the poller looks at in between goes out (`EchoFilter.EchoCanBeSent`). With both
  as one step that cannot happen (`EchoFilter.AtOnceEchoIff`).
- src/bridge/sync_engine.rs:811-813 starts a restarted engine at the current epoch with
  an empty set of bridge epochs. If the store's ranges include their lower end and its
  last commit was the bridge's own, that commit is echoed
  (`EchoFilter.RestartSendsEcho`). `EchoFilter.EchoIff` says that these two are the only
  ways.
- A failed batch rolls back the stores but not the maps. `FailedBatches` says exactly
  when bound ids are then dead, and when stored nodes and edges are left without a key.
- src/bridge/grafeo_tx.rs:129-134 removes a node's binding but not those of its edges
  (the last clause of `Bridge.StepKeeps`, `Bridge.DeletedNodeOrphansEdge`).
  `apply_tree_move` makes no cycle check, and a move onto the same parent, called
  idempotent at line 213, replaces the edge (`Bridge.MoveToSameParentRenews`,
  `Bridge.MoveToSameParentNoopIff`).
- The token count is cut to 32 bits before it is compared with zero
  (`InvertedIndexes.TermsAreTokens`).

## Model

| member | source | states |
|---|---|---|
| `Lcs.LcsMatches` | src/ffi/mod.rs:407-438 | The table-and-walk matcher returns pairs of equal lines, strictly increasing on both sides, and no common subsequence of the two texts is longer than the result |
| `Lcs.FillTable` | src/ffi/mod.rs:413-422 | The backwards in-place fill leaves in every cell the length of the best match of the two remaining texts |
| `Lcs.LenIsUpperBound` | src/ffi/mod.rs:413-422 | Every common subsequence of two remaining texts is at most as long as their table cell says |
| `Lcs.WalkIsCommon` | src/ffi/mod.rs:423-437 | The lines the forward walk pairs up are themselves a common subsequence of both texts, so with the bound above they are a longest one |
| `Lines.JoinSplit` | src/ffi/mod.rs:462-464 | Splitting a text at newlines and joining the lines gives back the text |
| `Lines.SplitJoin` | src/ffi/mod.rs:553-553 | Joining lines that hold no newline and splitting again gives back the lines, for every non-empty list |
| `Alignments.AlignRebuilds` | src/ffi/mod.rs:478-496 | The insertion ranges and kept base lines computed for one side rebuild that side line by line: an alignment loses nothing |
| `Alignments.AlignUnchanged` | src/ffi/mod.rs:466-496 | A side equal to the base keeps every base line and inserts nothing anywhere |
| `Alignments.RemainingAreSurvivors` | src/ffi/mod.rs:501-539 | What the assembly takes from one side is, in order, that side without exactly those matched lines whose base line the other side deleted |
| `TextMerge.InsertionRanges` | src/ffi/mod.rs:478-486 | The range array filled in place holds for each base line the stretch of the side between the last matched line and this one's partner, and (0, 0) for an unmatched line |
| `TextMerge.EmitPiece` | src/ffi/mod.rs:507-538 | One turn of the assembly: what goes out for two insertions and a base line, and that a conflict is seen exactly for two non-empty different insertions |
| `TextMerge.SemanticTextMerge` | src/ffi/mod.rs:461-554 | The imperative merge returns, for all texts, the text and resolution of the merge function the laws below speak of; a manual conflict is reported exactly when some slot holds two non-empty different insertions |
| `TextMerge.OursUnchanged` | src/ffi/mod.rs:448-459 | If ours is the base, the result is theirs to the letter, and theirs wins unless it is the base too |
| `TextMerge.TheirsUnchanged` | src/ffi/mod.rs:448-459 | If theirs is the base, the result is ours to the letter, and ours wins unless it is the base too |
| `TextMerge.SameEdit` | src/ffi/mod.rs:541-544 | The same edit on both sides comes out once, as Merged, whatever the base |
| `TextMerge.SwapSides` | src/ffi/mod.rs:501-553 | Swapping the sides swaps the two winners, keeps conflict status, and keeps the text whenever there is no conflict |
| `TextMerge.ResolutionMeans` | src/ffi/mod.rs:541-551 | A side is named winner exactly when it alone differs from the base, and then its text is the result; a manual conflict needs three pairwise different texts |
| `TextMerge.ResolutionIff` | src/ffi/mod.rs:541-551 | All four resolutions as if-and-only-ifs: manual exactly for a slot of the two alignments with two non-empty different insertions; Merged exactly without one when the sides agree or both differ from the base; a winner exactly when it alone differs from the base |
| `TextMerge.ClashLayout` | src/ffi/mod.rs:519-530 | In a clashing slot ours stands between the ours mark and the divider, theirs between the divider and the theirs mark |
| `TextMerge.CleanLayout` | src/ffi/mod.rs:507-518 | In any other slot stands the one insertion there is, without marks |
| `TextMerge.NoEditLost` | src/ffi/mod.rs:501-539 | Each side, without the lines that the other side deleted, is found in order in the merged lines, conflict or not |
| `TextMerge.LinesConserved` | src/ffi/mod.rs:501-539 | In every merge, conflict or not, the output lines together with what was held back (an insertion made by both, one copy of a base line kept by either) are count for count the lines of the two sides and the marker lines |
| `TextMerge.MarkedIffConflict` | src/ffi/mod.rs:519-530 | Marker lines are written exactly if some slot holds two non-empty different insertions |
| `TextMerge.CleanLinesConserved` | src/ffi/mod.rs:501-539 | Without a conflict output and held-back lines are just the lines of the two sides |
| `TextMerge.OutputOrigin` | src/ffi/mod.rs:501-539 | Every output line is one side's insertion, a base line both kept, or, only if there is a conflict, a conflict marker |
| `TextMerge.MergedTextSplits` | src/ffi/mod.rs:462-464 | Splitting the merged text gives back the merged lines, except that no lines at all come back as one empty line |
| `Graphs.AcyclicIffNoClosedWalk` | src/schema/edge.rs:78-99 | The notion of acyclicity that all checks are measured against: no closed walk of at least one edge |
| `ThreeColourDfs.BackEdge` | src/schema/edge.rs:157-163 | Meeting a gray node always closes a real cycle: the top of the stack has an edge to it and is reachable from it |
| `ThreeColourDfs.Finish` | src/schema/edge.rs:167-170 | A node is blackened only after all its successors, so the finish order stays a topological one |
| `EdgeBatch.BuildAdjacency` | src/schema/edge.rs:105-120 | The adjacency map and node set hold exactly the batch's edges, unless an edge is a self-loop, which is reported |
| `EdgeBatch.Turn` | src/schema/edge.rs:141-171 | One turn of the stack loop keeps the search invariant or reports an edge on a cycle, and makes progress in a well-founded order, so the loop ends on every batch |
| `EdgeBatch.ValidateAcyclic` | src/schema/edge.rs:100-174 | Ok exactly when the batch's edges have no directed cycle; on an error the reported parent-to-node pair is an edge of the batch that lies on a cycle |
| `Observability.Descends` | src/observability/mod.rs:354-362 | With child indices on the stack instead of iterators, descending to a white child keeps the very same search invariant |
| `Observability.Turn` | src/observability/mod.rs:339-364 | One turn of the index-stack loop keeps the invariant or has found a real cycle, and makes progress |
| `Observability.HasCycle` | src/observability/mod.rs:311-367 | True exactly when the pair list has a directed cycle, self-loops and repeated pairs included |
| `Observability.SameGraph` | src/observability/mod.rs:295-298 | The pair list of an edge batch induces the graph that the batch check judges, so the two checkers never disagree |
| `Observability.AllDistinct` | src/observability/mod.rs:257-264 | The seen-set loop accepts exactly the lists without repetition |
| `Observability.CheckInvariants` | src/observability/mod.rs:255-301 | Returns the first of the five invariants that fails, in order, and Ok exactly when all hold; monotony is checked pairwise on neighbours yet holds for all pairs |
| `Observability.FirstViolationIff` | src/observability/mod.rs:238-254 | Each answer by what fails and what the checks before it found in order |
| `Observability.ChecksMean` | src/observability/mod.rs:257-293 | What each of the first four checks looks at: no key twice, epochs never falling over all pairs, equally many nodes and containers with no node twice, no parent epoch above its child's |
| `ParentChains.RepointAcyclic` | src/schema/tree.rs:113-150 | Re-pointing a node of an acyclic parent map closes a cycle exactly when the node is on the new parent's chain |
| `ParentChains.ChainIsReach` | src/schema/tree.rs:117-134 | The chain walked upwards holds exactly what is reachable through parent pointers |
| `CycleGuards.CycleGuard.WouldCreateCycle` | src/schema/tree.rs:117-134 | On every map, cyclic or not, on which this walk ends: yes exactly when the node is the new parent or above it; on an acyclic map that is exactly when the move would close a cycle |
| `CycleGuards.CycleGuard.ApplyMove` | src/schema/tree.rs:140-150 | Accepted exactly when the parent map stays acyclic with it; refused moves change nothing and name node and parent |
| `CycleGuards.CycleGuard.RecordParentUnchecked` | src/schema/tree.rs:163-165 | An unchecked binding keeps the guard acyclic exactly when the checked move would have been accepted |
| `CycleGuards.CycleGuard.Detach` | src/schema/tree.rs:169-171 | Removes one binding and never breaks acyclicity |
| `CycleGuards.EveryWalkEndsIffAcyclic` | src/schema/tree.rs:152-165 | Every query on a parent map ends if and only if the map is acyclic: after a cyclic unchecked binding some later query loops for ever |
| `CycleGuards.WalkEndsIff` | src/schema/tree.rs:124-133 | One walk ends exactly when it comes to a root or to the node asked for |
| `CycleGuards.UncheckedCycleLoops` | src/schema/tree.rs:152-165 | Two unchecked bindings and a query that never ends |
| `RootTrackers.TrackerFollowsGuard` | src/schema/mod.rs:88-137 | In every run of moves, detachments and (un)registrations from the start, the guard stays acyclic, and the tracker's roots are the registered parentless nodes exactly when no unregistered node has lost a parent edge |
| `RootTrackers.DisciplinedRootsExact` | src/schema/mod.rs:88-137 | If only registered nodes are ever moved, the tracker reports exactly the registered nodes without a parent, in every run |
| `RootTrackers.UndisciplinedRootAppears` | src/schema/mod.rs:125-137 | Otherwise it need not: a node moved and detached without registration is reported as a root |
| `TreeMoves.Database.VisitParents` | src/schema/tree.rs:524-537 | One turn of the upward search: finds the node among the parents, or has all of them visited and the new ones queued |
| `TreeMoves.Database.WouldCreateCycleInTx` | src/schema/tree.rs:501-541 | The breadth-first pre-check ends on every finite graph and is true exactly when the node is the new parent or one of its ancestors over edges of every label |
| `TreeMoves.Database.SyncTreeMove` | src/schema/tree.rs:368-467 | Every answer by exactly when it is given, in the order of the checks; refused and empty moves change nothing, any other is one old edge out and one new edge in |
| `TreeMoves.MoveKeepsAcyclicIff` | src/schema/tree.rs:430-457 | Carried out on an acyclic graph, a move leaves it acyclic exactly when the new parent was not below the node; for all labels and for CHILD alone |
| `TreeMoves.SerialMovesStayAcyclic` | src/schema/tree.rs:368-467 | Any sequence of calls made one after the other keeps the CHILD graph acyclic, and the graph over all labels too |
| `TreeMoves.RejectedMoveWouldCycle` | src/schema/tree.rs:423-428 | A move refused as a cycle on an acyclic graph would have left a cycle over all labels |
| `TreeMoves.RefusedForAnotherLabel` | src/schema/tree.rs:469-471 | An edge of another label is enough to be refused although the CHILD graph would have stayed acyclic |
| `SingleParents.MoveSwapsOneEdge` | src/schema/tree.rs:430-457 | An accepted move leaves one old-parent CHILD edge fewer if there was one and one new-parent edge more, keeps the number of edges then, and keeps every other edge under its id |
| `SingleParents.MoveKeepsTreeIff` | src/schema/tree.rs:430-457 | A move of a tree leaves every node with at most one CHILD parent exactly when it names the current one or the node has none; the new parent is then the node's parent |
| `SingleParents.SerialMovesKeepTree` | src/schema/tree.rs:368-467 | Over every serial run whose calls name the current parents, each node has at most one CHILD parent, the one the accepted moves have set |
| `SingleParents.LastMoveCounts` | src/schema/tree.rs:368-467 | That parent is the one of the last accepted move of the node |
| `SingleParents.WrongParentLeavesTwo` | src/schema/tree.rs:430-457 | A call that names another parent is accepted and leaves the node under both |
| `ConcurrentMoves.StaleMovesAcyclicIff` | src/schema/tree.rs:334-341 | Any number of moves decided on one snapshot and all committed leave the graph acyclic, over all labels or over CHILD alone, exactly when in what is left of the snapshot they do not undercut each other in a circle, each putting its node at or below the next one's node |
| `ConcurrentMoves.TwoStaleMovesAcyclicIff` | src/schema/tree.rs:334-341 | Two accepted moves leave a cycle exactly when on the snapshot each new parent is at or below the other's node; over all labels, and over CHILD alone when only that is acyclic |
| `ConcurrentMoves.StaleCommitAcyclicIff` | src/schema/tree.rs:313-341 | One commit on top of any acyclic state, however old the snapshot it was decided on: only the state it lands on decides whether a cycle is closed |
| `ConcurrentMoves.StaleMovesCanCycle` | src/schema/tree.rs:334-341 | A concrete pair of such moves, from a graph without edges, that ends in a CHILD cycle |
| `ConcurrentMoves.ThreeStaleMovesCanCycle` | src/schema/tree.rs:334-341 | Three accepted moves, any two of which leave no cycle, close one together: checking pairs is not enough |
| `TreeAdapters.TreeAdapter.Children` | src/tree_adapter/mod.rs:139-164 | Fails exactly on unknown nodes; otherwise lists the bound children along the edge keys, leaving out unbound ones |
| `TreeAdapters.TreeAdapter.Descendants` | src/tree_adapter/mod.rs:176-204 | The explicit-stack walk lists the same nodes in the same order as the recursive visited-set pre-order walk |
| `TreeAdapters.TreeAdapter.VisitNew` | src/tree_adapter/mod.rs:191-201 | Replacing a new node on the work list by its children is the recursive walk's own next step; the reason why stack and recursion agree |
| `TreeAdapters.TreeAdapter.DescendantsAreReachable` | src/tree_adapter/mod.rs:166-204 | That walk lists exactly the nodes reachable by CHILD edges other than the start, each once, on cyclic maps too |
| `TreeAdapters.TreeAdapter.VisitFromAbove` | src/tree_adapter/mod.rs:168-204 | Each listed node is a child of the start or of a node listed before it: parents come before children |
| `TreeAdapters.TreeAdapter.ParentNoneIff` | src/tree_adapter/mod.rs:110-127 | The parent look-up answers None exactly for a known node without an incoming CHILD edge |
| `TreeAdapters.TreeAdapter.ParentFollowsFirst` | src/tree_adapter/mod.rs:110-127 | Otherwise it follows the first such edge in the order of the edge map, to the bound source, or to an error if that is unbound |
| `TreeAdapters.TreeAdapter.Ancestors` | src/tree_adapter/mod.rs:214-231 | Ends on every map; lists the parent chain nearest first, without repetition, and exactly the nodes reachable through parent look-ups other than the start |
| `TreeAdapters.TreeAdapter.DescendantIffAncestor` | src/tree_adapter/mod.rs:176-231 | On mutually inverse maps with at most one CHILD parent per node, m is a descendant of n exactly when n is an ancestor of m |
| `Tokens.TokensAreTokens` | src/fts/mod.rs:279-295 | Every token is non-empty, free of delimiters and unchanged by lowercasing |
| `Tokens.TokenizeSplits` | src/fts/mod.rs:279-295 | Every delimiter, line breaks among them, separates: the text before it and the text after it are tokenized on their own |
| `Tokens.TokenizeWord` | src/fts/mod.rs:279-295 | A text without delimiters is a single token, its capitals made small; the empty text none |
| `Tokens.DelimiterIff` | src/fts/mod.rs:280-280 | Of the ASCII characters all but letters and digits separate, of the others white space alone |
| `Tokens.LowerLetters` | src/fts/mod.rs:284-292 | Each of the twenty-six capitals becomes its own small letter, every other character stays |
| `Tokens.TokenizeSpaced` | src/fts/mod.rs:279-295 | Any list of such tokens, written out with spaces, tokenizes to itself |
| `Tokens.TokenizeStable` | src/fts/mod.rs:272-295 | Tokenizing the spaced-out tokens of a text gives the tokens of the text |
| `Sorted.InsertIdSorted` | src/fts/mod.rs:100-105 | Inserting at the binary-search position keeps a posting list strictly sorted and adds just that id |
| `Sorted.RemoveIdSorted` | src/fts/mod.rs:123-125 | Removing at the binary-search position keeps it strictly sorted and removes just that id |
| `PostingLists.Lists.AddAllTerms` | src/fts/mod.rs:99-107 | Filing a document under its terms keeps postings and frequencies in agreement and adds exactly the document's own entries |
| `PostingLists.Lists.RemoveAllTerms` | src/fts/mod.rs:121-138 | Unfiling takes exactly the document's entries away; emptied lists and zero frequencies disappear together |
| `PostingLists.Lists.Determined` | src/fts/mod.rs:38-53 | Two consistent pairs of term maps with the same entries are equal: nothing but which document has which term is stored |
| `InvertedIndexes.TermsAreTokens` | src/fts/mod.rs:76-88 | A document is filed under exactly its distinct tokens, except exactly when its token count is a non-zero multiple of 2^32 and wraps to zero |
| `InvertedIndexes.WrappedTextHasNoTerms` | src/fts/mod.rs:76-88 | A text of 2^32 words has tokens and is filed under none of them |
| `InvertedIndexes.LengthOfSpaced` | src/fts/mod.rs:76-88 | The stored length of a text written with n tokens is n cut to 32 bits, and it is filed under just those tokens unless that is zero |
| `InvertedIndexes.Index.FreqBounded` | src/fts/mod.rs:99-107 | A term's document frequency lies between one and the number of documents |
| `InvertedIndexes.Index.Determined` | src/fts/mod.rs:38-53 | All index fields follow from the documents' terms and lengths |
| `InvertedIndexes.InvertedIndex.DistinctTerms` | src/fts/mod.rs:88-97 | Counting in a hash map and sorting its keys gives the sorted list of distinct tokens, whatever the map's order |
| `InvertedIndexes.InvertedIndex.RecomputeAvg` | src/fts/mod.rs:256-263 | The average times the number of documents is the sum of all stored lengths; zero without documents |
| `InvertedIndexes.InvertedIndex.IndexDoc` | src/fts/mod.rs:71-113 | Keeps all six fields in agreement; the document's terms and length become those of the new text, replacing earlier ones, all other documents stay |
| `InvertedIndexes.InvertedIndex.RemoveDoc` | src/fts/mod.rs:116-144 | Keeps all six fields in agreement; that document goes, all others stay; unknown documents are ignored |
| `InvertedIndexes.InvertedIndex.IndexThenRemove` | src/fts/mod.rs:71-144 | Indexing a new document and removing it again restores every field |
| `InvertedIndexes.InvertedIndex.Run` | src/fts/mod.rs:71-144 | After any sequence of calls a document is posted under a term exactly if its latest text is filed under it, with strictly sorted non-empty lists, exact frequencies and an exact document count |
| `Search.ScorePositive` | src/fts/mod.rs:160-191 | A document's score is never negative, and positive if it has a query term |
| `Search.RarerWeighsMore` | src/fts/mod.rs:166-168 | For an increasing logarithm the rarer term weighs more |
| `Search.NearerWeighsMoreIff` | src/fts/mod.rs:173-188 | Of two lengths the one nearer the average on the logarithm's scale weighs more, and only it; what is nearer than the floor counts as the floor |
| `Search.WeightAtAverage` | src/fts/mod.rs:166-188 | At the average length the weight is the smoothed inverse frequency divided by one plus the floor |
| `Search.TruncatedIsTopK` | src/fts/mod.rs:192-205 | Sorting all scores and cutting off gives the exact top of the ranking |
| `Search.Find` | src/fts/mod.rs:148-206 | Distinct documents, each with a query term and its exact score, by falling score and then rising id; as many as the limit and the matches allow; no omitted match ranks ahead of a listed one |
| `Bridge.BridgeMaps.ValidateTextBijection` | src/bridge/grafeo_tx.rs:354-408 | Ok exactly on mutually inverse node maps; otherwise the error names a disagreement that is really there |
| `BridgeApply.ApplyUpsertNode` | src/bridge/grafeo_tx.rs:155-175 | Takes the look-up-or-create step of the protocol on session and maps, property by property |
| `Bridge.StoredReadsBack` | src/types/values.rs:172-261 | Properties that came out of the document read back from the store as they were |
| `BridgeApply.ApplyUpsertEdge` | src/bridge/grafeo_tx.rs:178-210 | Takes the edge step: refused without change if an endpoint is unbound, otherwise updates or creates and binds |
| `BridgeApply.ApplyTreeMove` | src/bridge/grafeo_tx.rs:219-254 | Takes the move step: the old CHILD binding and edge go first, then the new edge is made unless one is bound |
| `BridgeApply.ApplyLoroOp` | src/bridge/grafeo_tx.rs:116-152 | Every operation, carried out on the mutable session and maps, is a step of the protocol |
| `Bridge.StepKeeps` | src/bridge/grafeo_tx.rs:116-254 | Every step keeps node and edge maps mutually inverse and bound nodes live; only an edge can be refused, and then nothing changes; bound edges keep joining the nodes their keys name, except exactly when a node is deleted that a bound edge still names |
| `Bridge.DeletedNodeOrphansEdge` | src/bridge/grafeo_tx.rs:129-134 | Two nodes, an edge between them and the deletion of one: the edge key stays bound and names a node that is gone |
| `Bridge.MoveToSameParentRenews` | src/bridge/grafeo_tx.rs:235-252 | A move onto the parent the node already has takes the edge away and makes a new one: same end points, another id, no properties |
| `Bridge.MoveToSameParentNoopIff` | src/bridge/grafeo_tx.rs:212-252 | Such a move changes nothing if and only if the node or the parent is unknown |
| `Bridge.RunsFromEmpty` | src/bridge/grafeo_tx.rs:43-56 | From empty maps, every sequence of operations, refused ones among them, leaves both pairs of maps mutually inverse and every bound node id live |
| `Bridge.RunKeepsConsistent` | src/bridge/grafeo_tx.rs:116-254 | The same from any consistent state, and no node or edge id ever handed out is forgotten |
| `Replay.StepMirrors` | src/bridge/grafeo_tx.rs:106-254 | If session and maps mirror a document of keyed nodes and edges, they mirror it after every step as well: one node per key with its labels and properties and no other node, every stored edge one of the document's |
| `Replay.RunMirrors` | src/bridge/grafeo_tx.rs:106-254 | In every run from any mirrored state, refused operations included, the store is what replaying the operations on keys alone gives; ids and maps are an implementation detail |
| `Replay.TidyRunFaithful` | src/bridge/grafeo_tx.rs:106-254 | As long as no node is deleted that a bound edge still names, the store is that document's graph exactly: every edge present, between the nodes its key names |
| `Replay.SameOpsSameGraph` | src/bridge/grafeo_tx.rs:106-175 | Two stores sent the same operations from nothing hold the same nodes under the same keys and bind the same edge keys, whatever ids they gave out and even if only one refused |
| `Replay.TidyRunsIsomorphic` | src/bridge/grafeo_tx.rs:106-254 | If besides neither deletes a node that a bound edge still names, the two stores are isomorphic graphs: some renaming of node and edge ids carries one over into the other, labels, properties and end points included |
| `Replay.UpsertNodeTwice` | src/bridge/grafeo_tx.rs:108-113 | Sending the same node again changes nothing |
| `BridgeApply.FlushBatch` | src/bridge/batcher.rs:290-316 | A batch is applied in order in one transaction; it fails exactly at an operation that is refused there, and then the stores go back to where they were, the maps do not |
| `FailedBatches.FailedBatchLiveIff` | src/bridge/grafeo_tx.rs:164-175 | After a refused batch every bound node id is live exactly when no key was left bound to a node made by that batch, read off the operations alone |
| `FailedBatches.FailedBatchNodesNamedIff` | src/bridge/grafeo_tx.rs:129-134 | Stored nodes and named nodes still agree exactly when, besides, every key bound at the start is still bound |
| `FailedBatches.FailedBatchEdgesLiveIff` | src/bridge/grafeo_tx.rs:198-209 | Every bound edge id is live exactly when no edge key was left bound to an edge made by the batch and those left were live at the start |
| `FailedBatches.FailedBatchEdgesNamedIff` | src/bridge/grafeo_tx.rs:235-252 | Every stored edge still has a key exactly when the batch unlinked no edge that was live at the start, not even to link its key again |
| `FailedBatches.FailedBatchHarmlessIff` | src/bridge/grafeo_tx.rs:116-254 | The maps are as before the batch exactly when the books kept over its operations end as they began |
| `FailedBatches.FailedUpsertLeavesDeadBinding` | src/bridge/batcher.rs:291-293 | A node made by a batch that then meets a refused edge stays bound to an id the store does not know |
| `FailedBatches.FailedDeleteLeavesNamelessNode` | src/bridge/batcher.rs:291-293 | A node deleted by such a batch stays in the store without a key, all bound ids being live, and the next upsert makes a second node for it |
| `FailedBatches.FailedLinkLeavesDeadEdge` | src/bridge/batcher.rs:291-293 | An edge made by such a batch stays bound to an id the store does not know |
| `FailedBatches.FailedUnlinkLeavesNamelessEdge` | src/bridge/batcher.rs:291-293 | An edge deleted by such a batch stays in the store without a key, all bound edges being live, and the next upsert makes a second one between the same nodes |
| `Batching.OpBatcher.Handle` | src/bridge/batcher.rs:199-224 | One wake-up: a tick, a shutdown or the operation that fills the batch empties the buffer in one commit, or in none if there is nothing; any other operation is only collected, with store, clock and epochs unchanged; nothing received is dropped or applied twice |
| `Batching.OpBatcher.Serve` | src/bridge/batcher.rs:194-227 | Whatever the wake-ups, what has been applied plus what is buffered is what was received, in order; what is buffered arrived after the last tick; at shutdown the store has been through exactly the run of all received operations; one epoch is recorded per commit; it stops early only for a batch that is refused, which it rolls back |
| `EchoFilter.StepKeepsBasic` | src/bridge/sync_engine.rs:810-877 | Every interleaving of commits, recordings, polls, prunings and deliveries keeps the epoch books: epochs increase, none is marked that is not the bridge's, every bridge commit a coming poll can return is marked or was there, unknown, before the engine started |
| `EchoFilter.PruningSpares` | src/bridge/sync_engine.rs:866-874 | Pruning never drops the epoch of a bridge commit that lies ahead of the poller |
| `EchoFilter.RetainedExact` | src/bridge/sync_engine.rs:866-873 | Pruning keeps exactly the epochs above the poller's position less ten thousand, and never epoch zero |
| `EchoFilter.EchoIff` | src/bridge/sync_engine.rs:810-877 | In every run an event of a bridge commit is forwarded if and only if the poller looked at one between that commit and the recording of its epoch, or at one that an earlier engine left at the starting epoch of a start-inclusive range |
| `EchoFilter.EchoCanBeSent` | src/bridge/batcher.rs:309-315 | A run of four steps, the poll between commit and recording, in which an echo goes out |
| `EchoFilter.AtOnceEchoIff` | src/bridge/batcher.rs:309-315 | If every bridge commit is recorded before anything else happens, an event of one is forwarded exactly if it is such an old one |
| `EchoFilter.AtOnceNoEcho` | src/bridge/batcher.rs:309-315 | So none ever is when ranges leave out their lower end or no unknown bridge commit stands at the starting epoch |
| `EchoFilter.RestartSendsEcho` | src/bridge/sync_engine.rs:811-826 | A run of three steps of a restarted engine over start-inclusive ranges in which the last commit of the engine before it is echoed, the poller never being too early |
| `EchoFilter.ExactlyOnce` | src/bridge/sync_engine.rs:810-877 | With start-exclusive ranges and no such early look, the events sent up to the poller's position are exactly those of all other commits since startup, each once, in order, failed polls or not, and the worker's second filter drops none of them |
| `EchoFilter.AtOnceExactlyOnce` | src/bridge/sync_engine.rs:810-877 | The same from commit and recording as one step, with no other assumption on the timing |
| `EchoFilter.TakeHandles` | src/bridge/sync_engine.rs:716-737 | The worker takes the next event and lets it through exactly if its epoch is not recorded by then |
| `EchoFilter.TakenCounts` | src/bridge/sync_engine.rs:712-740 | After any run it has looked at one event for each of its steps |
| `EchoFilter.ForeignSplit` | src/bridge/sync_engine.rs:826-827 | Consecutive poll ranges fit together without gap or overlap |
| `EchoFilter.BoundaryReturnedTwice` | src/bridge/sync_engine.rs:826-827 | An event at the boundary of two polls is returned by both exactly if ranges include their lower end |
| `EchoFilter.UninterruptedPoll` | src/bridge/sync_engine.rs:833-874 | One poll of the state machine that nothing interrupts does what the poller's loop ensures |
| `EchoFilter.CdcPoller.Deliver` | src/bridge/sync_engine.rs:833-874 | The loop of one poll forwards exactly the events that pass the filter, in order, then prunes, then advances |
| `MemoryCeilings.ByAgeIsStableSort` | src/runtime/mod.rs:318-318 | The eviction order: oldest first, the same documents, equal ages in their old order |
| `MemoryCeilings.Ceiling.VictimsLeast` | src/runtime/mod.rs:320-327 | The number of evicted documents is the least that makes room, or all of them |
| `MemoryCeilings.Ceiling.EvictToFitExact` | src/runtime/mod.rs:313-329 | The loop evicts exactly that oldest-first prefix and subtracts exactly its bytes, without wrapping |
| `MemoryCeilings.Ceiling.TryAllocExact` | src/runtime/mod.rs:217-237 | For every request: it succeeds exactly when usage minus all idle bytes plus the request fits the budget, evicts exactly the shortest oldest-first prefix needed, keeps the books sound and never ends a success over budget, if and only if on the way no sum wraps round the word to something that fits |
| `MemoryCeilings.Ceiling.TryAllocWraps` | src/runtime/mod.rs:217-237 | Otherwise it succeeds and books a usage that is a whole word too small |
| `MemoryCeilings.Ceiling.HugeRequestAccepted` | src/runtime/mod.rs:228-237 | With one byte in use, a request for all but one value of the word is accepted and leaves no usage |
| `MemoryCeilings.Ceiling.InnerRightIff` | src/runtime/mod.rs:228-237 | The check answers as on unbounded numbers except exactly when the sum wraps round to something that fits |
| `MemoryCeilings.Ceiling.EvictIdleExact` | src/runtime/mod.rs:294-308 | Reports the smaller of the usage and the size of the oldest document; the counter goes down by that exactly when the document is no larger than the usage, beyond that it wraps although the report is clamped |
| `MemoryCeilings.Ceiling.EvictIdleConserves` | src/runtime/mod.rs:294-308 | On sound books the whole document is given back: usage apart from idle documents stays the same |
| `MemoryCeilings.Ceiling.OversizedIdleDocWraps` | src/runtime/mod.rs:294-308 | An idle document larger than the usage: nothing is reported as freed and the counter ends near the top of the word |
| `MemoryCeilings.Ceiling.ReleaseExact` | src/runtime/mod.rs:241-253 | Releasing clamps at zero, and keeps the books sound exactly when what is left covers the idle documents |
| `MemoryCeilings.Ceiling.RegisterExact` | src/runtime/mod.rs:266-281 | Registering replaces the document of that key where it stands or appends it, and touches no other |
| `MemoryCeilings.Ceiling.RegisterIdleSoundIff` | src/runtime/mod.rs:266-281 | Registering keeps the books sound exactly when the idle documents, this one in place of its old self, are still covered by the usage |
| `MemoryCeilings.Ceiling.FairRunStaysSound` | src/runtime/mod.rs:150-329 | Any sequence of calls that wrap no sum, release nothing idle documents account for and register nothing beyond the usage keeps the books sound and the usage within the budget for ever |
| `MemoryCeilings.MemoryCeiling.TryAlloc` | src/runtime/mod.rs:217-225 | The method's new state and answer are those of the value function the exact lemma is about |
| `MemoryCeilings.MemoryCeiling.EvictToFit` | src/runtime/mod.rs:313-329 | The sort-and-remove loop on the mutable fields does what the value function says |
| `ShadowStore.Store.CommitKeeps` | src/shadow/mod.rs:114-138 | A collision-free commit on stored parents keeps first-parent chains acyclic, changes no existing history, and puts itself in front of its first parent's history |
| `ShadowStore.Store.ResetKeeps` | src/shadow/mod.rs:190-214 | A successful reset goes back along the peer's own history, and what is left is the rest of that history |
| `ShadowStore.Store.CommitThenReset` | src/shadow/mod.rs:114-214 | Committing on one's own tip and resetting to that tip gives back all refs and every history |
| `ShadowStore.Store.WalkIsPrefix` | src/shadow/mod.rs:151-171 | The history walk is the first-parent chain of the tip cut to the limit |
| `ShadowStore.RunKeepsHistories` | src/shadow/mod.rs:114-214 | Every run of commits and resets keeps the store valid and every history that was ever there |
| `ShadowStore.ShadowRefStore.Commit` | src/shadow/mod.rs:114-138 | The stored commit has the given parents, or the peer's tip in place of none, its own hash, peer, time and state; the peer's ref moves to it, no other does |
| `ShadowStore.ShadowRefStore.History` | src/shadow/mod.rs:151-171 | The loop returns that walk; nothing for a peer without commits |
| `ShadowStore.ShadowRefStore.InHistory` | src/shadow/mod.rs:190-211 | The walk ends, and finds the target exactly if it is on the tip's chain |
| `ShadowStore.ShadowRefStore.ResetTo` | src/shadow/mod.rs:177-215 | For a peer with a tip succeeds exactly on members of its chain, for one without on every stored commit; moves that ref alone and returns the previous tip, the target if there was none; failures change nothing and say whether the commit is unknown or not in the history |
| `Hydration.HydrateSerial` | src/hydration/serial.rs:49-105 | Succeeds exactly if every vertex can be read, and then there is one node per vertex with its labels and properties, nothing else, and the maps are mutually inverse |
| `Hydration.HydratedNodes` | src/hydration/serial.rs:86-98 | Every vertex has a node of its own with its labels and its properties translated for the store |
| `Hydration.SameUpToIds` | src/hydration/serial.rs:61-104 | Any two hydrations of one document differ in nothing but the node ids: some bijection carries one over into the other |
| `Hydration.StepKeepsInvariant` | src/hydration/parallel.rs:101-163 | Every small step of any chunk's worker (look-up, node creation, forward binding, inverse binding, commit), in any interleaving, keeps the invariant that accounts for every key, node and binding |
| `Hydration.LookupMisses` | src/bridge/grafeo_tx.rs:162-167 | While chunks run side by side, no worker ever finds its key bound by another |
| `Hydration.ParallelIsSerial` | src/hydration/parallel.rs:101-163 | Every interleaving of the chunks from empty maps and store ends, once all have committed, in the serial result up to node ids |
| `Hydration.CanAlwaysMove` | src/hydration/parallel.rs:101-163 | As long as some chunk has not committed there is a step to take |
| `Hydration.ScheduleLength` | src/hydration/parallel.rs:101-163 | No schedule is longer than four steps for each vertex and one for each chunk, and those of that length are exactly the ones in which all have committed |
| `Values.FailsIffOpaque` | src/types/values.rs:172-193 | Inbound translation fails exactly when a binary or container value occurs at some depth |
| `Values.RoundTrip` | src/types/values.rs:172-261 | Otherwise translating on to the store and back out gives the original value, at every depth |
| `Values.VectorReadsAsList` | src/types/values.rs:206-247 | A vector is stored as one and read back as the list of its numbers, in order |
| `Values.NullIff` | src/types/values.rs:225-261 | Null is read back from null and from every exotic value, and from nothing else |
| `Values.OutboundReadable` | src/types/values.rs:225-261 | Whatever the outbound translation writes, the inbound one can read |
| `Values.EchoedIff` | src/types/values.rs:219-261 | Out and back in is the identity exactly on values without vectors and exotic kinds |

## Left out

- Tokio tasks, channels, timeouts and `spawn_blocking`: only the atomic steps they order are modelled.
- The graph store, the document and their sessions: abstract stores that give fresh ids and increasing commit epochs; a commit is one step. The order of a hash map's keys is a choice or a parameter.
- Telemetry, tracing, health probes, C callbacks, global registries, the app builder, storage backends, embeddings: plumbing.
- Wire headers, edge-key string codec, offline queue, lineage epochs, snapshot chunks: would only add easy members. So would the plain getters, `CycleGuard::roots` and `BridgeMaps::remove_edge_by_id`.
- CycleGuards.CycleGuard.WouldCreateCycle: asks that the walk ends, since the source does not return otherwise; `WalkEndsIff` says exactly when it does.
- CycleGuards.CycleGuard.ApplyMove: asks for an acyclic parent map, which every run of moves and detachments keeps.
- SingleParents.SerialMovesKeepTree: asks that calls name the current parent, which the source leaves to its callers; `WrongParentLeavesTwo` shows why.
- ConcurrentMoves.StaleMovesAcyclicIff: all moves read the same snapshot; for one that lands on a later state, `StaleCommitAcyclicIff` speaks of that state.
- TreeAdapters.TreeAdapter.Descendants: reads one snapshot of the maps; the source takes the lock anew for each look-up.
- Search.Find: scores are reals with the logarithm as a parameter that is non-negative from one on; rounding and NaN are not modelled.
- InvertedIndexes.InvertedIndex.Run: document ids and the document counter are unbounded numbers, the token count is cut to 32 bits as in the source.
- Tokens.TokenizeSpaced: white space is the Unicode White_Space property; only ASCII letters change case, as in the source.
- Values.RoundTrip: numbers are unbounded integers and reals, widening of 32-bit vector elements is exact; the error does not say which kind was refused.
- Bridge.StepKeeps: which incident edges go with a deleted node is left to the store.
- BridgeApply.FlushBatch: a refusal stands for every error of the transaction; failures of begin, prepare and commit are not modelled.
- Batching.OpBatcher.Serve: no flush timeout, so no batch that commits after its flush was reported failed; commit epochs count up by one, with no other writer; operations still in the channel at shutdown are outside the model.
- EchoFilter.AtOnceNoEcho: asks for start-exclusive ranges, or that the commit at the starting epoch is no bridge commit unknown to the engine; `RestartSendsEcho` shows why.
- EchoFilter.ExactlyOnce: asks that no poll looks at an unrecorded commit, which commit and recording in one step give (`AtOnceExactlyOnce`); translating a forwarded event into the document is not modelled.
- MemoryCeilings.Ceiling.TryAllocExact: one thread; asks for idle sizes that are part of the usage; sums wrap, as in a build without overflow checks; one with them stops there. Races between check and increment are not modelled, nor are the bytes that `evict_to_fit` adds up and its caller drops.
- ShadowStore.RunKeepsHistories: the hash is a parameter; asks for explicit parents already stored and no collisions.
- Hydration.ParallelIsSerial: runs in which every vertex can be read; cancellation after an error is not modelled. A worker's uncommitted nodes share one store from the start, since only the end of the run is compared.
- Hydration.HydrateSerial: one session stands for the chunks' sessions, each of which commits before the next begins; vertices come as records or as unreadable.
