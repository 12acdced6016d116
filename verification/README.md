# Verified model of kaval.ai

kaval.ai runs agent workflows: directed graphs of LLM, function and branching steps
that are drawn as diagrams, executed by an engine, fed by retrieval over embedded
documents and streamed to clients. This project models the algorithmic cores of that
system in Dafny and proves what they are relied on for, for every input and every run.

Check it with `dafny verify dfyconfig.toml`.

## What is modelled

**Diagrams** (`Graphs`, `BackEdges`, `Depths`, `Layout`, `Crossings`). The depth-first search with an
explicit stack of (node, iterator) frames that finds loop-closing edges, the relaxation that
turns the remaining edges into rows, the placement of boxes, and the curve of each
transition. The graph may have self-loops, parallel edges, several components and
transitions to names that do not exist; node names may repeat in the list. The result
of the whole chain, `Layout.DrawWorkflow`: among transitions whose source the start
reaches, exactly the back edges are drawn as bowed curves, and the others are decided by the order of the names. The comments in render.py say
that the forward edges are acyclic and that as many passes as nodes are enough. Both hold.
Another says that bowed edges do not cross the boxes. They can: a self-loop crosses the next box of its row if there is one
(`Crossings.LoopCrossesOnlyNeighbour`), and an edge to the row directly above, as any retry
branch draws it, crosses a box if and only if its lower end has a neighbour on the right and the
upper end is further right, or the other way round, or the two are eight columns or more apart
(`Crossings.UpwardCrossesIff`, `Crossings.RetryBranchIsCrossed`). For any bowed edge
`Crossings.BowedMisses` says which boxes are out of its way.

**Workflows and their execution** (`Workflows`, `Engine`). The validator, and the
engine's loop against a specification function over an arbitrary oracle: a function from
the visit number to what the step's work raises, if anything, and what its condition evaluates to.
The visit limit is characterised exactly, by paths of the graph. `run` marks a state failed
only for exceptions that are not the engine's own `WorkflowException`; a failing tool raises
a subclass of that (functionkernel.py), so such a run leaves its state running
(`Engine.FailedIffOtherException`, `Engine.FailingToolIsNotRecorded`).

**Diagrams against execution** (`Diagrams`). The arrows that are drawn are the
transitions the engine may take, so the diagram decides whether the visit limit can matter,
unless the loop lies behind a step whose name is empty, which is valid but not drawn.

**Reference inlining** (`Strings`, `Json`, `JsonPointers`, `SpecParser`). Termination on every
document by the lexicographic measure (references not yet seen, size); complete inlining if
and only if the chains of references are free of repetition and resolve; expansion at all if
and only if the chains that are free of repetition resolve; and navigating the
output is following references step by step in the original, circular documents included. Pointers are written as in
sections 3 and 6 of RFC 6901 and decoded as in section 4; the decoding strips leading `#` and `/`
from the whole pointer, which makes some keys unreachable: `JsonPointers.ParseOfEncode`
says what any pointer is read as, `JsonPointers.PointerRoundTrip` for which keys that is right.
An external reference resolves to a dictionary with an error text, as in the source.

**Display lanes** (`Sorting`, `Lanes`). First fit puts each run into one lane without
overlap and no arrangement whatsoever uses fewer lanes.

**Retrieval** (`Sets`, `Retrieval`, `Pagination`, `Similarity`). Each shortcut against the plain
definition it stands for: the windowed best-chunk-per-source query against the ranking of all
sources, pages by key against one sorted scan (also while the table changes), and the
similarity matrix from candidates against the exact one. A table is a set of rows with
an exact distance and ties broken by id.

**Streaming** (`Streaming`, `Streamers`). Value streamers and one consumer as a state machine
over their interleaved steps, and the two classes, each of whose methods takes one step of it.
One well-behaved streamer is delivered completely. With several, the consumer can stop while
chunks are waiting, although the docstring of `__anext__` suggests otherwise: it stops at the first complete
chunk it reads once all streamers have completed. `Streaming.LastCompletionDecides` gives the exact
condition, `Streaming.TwoStreamersCanLoseChunks` an example.

**Paths and expressions** (`Resolvers`, `Expressions`). The path walker and the expression
evaluator, which must agree on dotted names. They do unless a segment `length` before the last
measures something, where the path gives the length and the expression None.

## Form

Loops that update variables are methods with invariants, proved against a predicate or a
specification function; objects that are updated in place are classes. Recursive code is
functions. `Entry`, `Row` and similar values are datatypes.

## Model

| member | source | states |
|---|---|---|
| `BackEdges.LoopFinder.Visit` | kavalai/workflow/render.py:117-136 | one stack search from an undiscovered root ends with nothing left on the stack, keeps the search invariant and discovers only nodes its tree reaches from the root |
| `BackEdges.StepBack` | kavalai/workflow/render.py:126-128 | a target on the stack is reached from itself through the discovery tree, so recording the edge keeps every recorded edge on a cycle |
| `BackEdges.StepPush` | kavalai/workflow/render.py:129-133 | discovering a node keeps tree and back edges disjoint and the stack a tree path |
| `BackEdges.StepPop` | kavalai/workflow/render.py:134-136 | an exhausted node is finished after everything its other edges lead to |
| `BackEdges.FindBackEdges` | kavalai/workflow/render.py:105-142 | for every graph: removing the result leaves no cycle, each removed edge has a surviving way back, and no node is cut off from the node the drawing starts from |
| `BackEdges.BackEdgesIffCycles` | kavalai/workflow/render.py:108-113 | the set is empty if and only if the graph has no cycle |
| `BackEdges.CycleThrough` | kavalai/workflow/render.py:110-112 | every reported edge lies on a cycle all of whose other edges stay |
| `BackEdges.SpansMeansNothingLost` | kavalai/workflow/render.py:138-142 | what the first search root reaches it still reaches without the back edges |
| `Depths.Relax` | kavalai/workflow/render.py:155-166 | at most one pass per node ends with depths that are lengths of paths and that no path exceeds |
| `Depths.EnoughPasses` | kavalai/workflow/render.py:156-157 | paths with at most as many edges as there are nodes are all paths |
| `Depths.FixpointCoversAll` | kavalai/workflow/render.py:165-166 | stopping at the first pass without change loses no path |
| `Depths.CompleteMeansLongest` | kavalai/workflow/render.py:148-148 | such depths are longest paths, for exactly the reachable nodes |
| `Depths.Park` | kavalai/workflow/render.py:167-172 | names without a row get rows of their own, from the bottom down in order of first appearance |
| `Depths.AssignDepths` | kavalai/workflow/render.py:145-173 | rows are longest paths from the start over the forward edges, the rest is parked directly below the deepest |
| `Depths.UnreachableApart` | kavalai/workflow/render.py:167-172 | an unreachable node shares its row with no node and lies below every reachable one |
| `Depths.RootIsOnTop` | kavalai/workflow/render.py:155-155 | the start has row 0 |
| `Layout.PlaceBoxes` | kavalai/workflow/render.py:176-199 | every name sits in its slot of its row, rows are centred on the widest, the canvas fits the widest and the deepest row |
| `Layout.BoxesApart` | kavalai/workflow/render.py:188-195 | boxes of different nodes keep 44 px between columns or 76 px between rows |
| `Layout.BoxesInsideMargins` | kavalai/workflow/render.py:184-198 | every box lies within the margins |
| `Layout.RowsAreCentred` | kavalai/workflow/render.py:186-195 | every row is its own mirror image about the middle of the grid |
| `Layout.RowsFollowList` | kavalai/workflow/render.py:178-195 | within a row, boxes come from left to right as their names are listed |
| `Layout.PathHasShape` | kavalai/workflow/render.py:202-221 | every point of every edge: a downward edge moves sideways by the same amount at both ends and is vertical there, a bowed one is horizontal at both ends; where their labels are and how far right they reach |
| `Layout.CurveStaysLeft` | kavalai/workflow/render.py:202-221 | no point of an edge's curve is right of the reported rightmost x, which sizes the canvas |
| `Layout.DownwardLabelOnCurve` | kavalai/workflow/render.py:210-215 | the label anchor of a downward edge is the middle of its curve |
| `Layout.DownwardBetweenBoxes` | kavalai/workflow/render.py:210-215 | a downward edge runs from the bottom centre of its source to the top centre of its target, between their heights |
| `Layout.BowedRightOfBoxes` | kavalai/workflow/render.py:216-221 | any other edge runs from right side to right side, never left of the nearer one and between their heights |
| `Crossings.NextRowCrossesNoBox` | kavalai/workflow/render.py:176-215 | on the grid, an edge to the next row crosses no box |
| `Crossings.LoopCrossesOnlyNeighbour` | kavalai/workflow/render.py:217-221 | a self-loop crosses a box if and only if that box is the next one in its row |
| `Crossings.BowedMisses` | kavalai/workflow/render.py:216-221 | no bowed edge crosses a box that ends above its upper end, begins below its lower end, ends left of its nearer end or begins right of the reported rightmost x |
| `Crossings.UpwardCrossesIff` | kavalai/workflow/render.py:216-221 | an edge to the row directly above crosses some box if and only if its source has a right neighbour and the target is further right, or its target has one and the source is further right, or they are eight columns or more apart |
| `Crossings.ReachInSourceRow` | kavalai/workflow/render.py:216-221 | of the boxes right of the source in its row such an edge crosses those that begin less than 42.58 px plus 0.6524 of the way to the target from it, and none that begin 42.6 px plus 0.6526 of the way or more |
| `Crossings.ReachInTargetRow` | kavalai/workflow/render.py:216-221 | the same for boxes right of the target in its row, with the way to the source |
| `Crossings.ReachIsExactNearby` | kavalai/workflow/render.py:216-221 | on the grid the two bounds agree for the next fifteen boxes |
| `Crossings.RetryBranchIsCrossed` | kavalai/workflow/render.py:216-221 | with s leading to a and b, and a back to s, the edge back is drawn across b |
| `Layout.RowsFollowEdges` | kavalai/workflow/render.py:145-173 | an edge within reach leads to a lower row if and only if it is not a back edge |
| `Layout.DrawEdges` | kavalai/workflow/render.py:251-257 | every transition between nodes is drawn once, in order, as an edge of that shape between its boxes, on a canvas exactly as wide as the grid and the edges need |
| `Layout.DrawableAt` | kavalai/workflow/render.py:251-254 | a transition is drawn after all transitions of earlier names and the earlier ones of its own |
| `Layout.DrawWorkflow` | kavalai/workflow/render.py:246-257 | the chain as a whole: within reach of the start exactly the back edges are bowed, and outside of it exactly the edges to a node within reach or to one listed no later than their source |
| `Workflows.WorkflowGraph.Validate` | kavalai/workflow/models.py:189-231 | an error names a fault the graph has, and no fault that is checked earlier is present; success means the graph is valid and the entry point is settled |
| `Workflows.OutputsAreDeclared` | kavalai/workflow/models.py:223-229 | outputs of end steps and tasks, and no others, are asked to be declared data types |
| `Workflows.TargetsAreKnown` | kavalai/workflow/models.py:215-245 | the targets asked to be known, kind of step by kind of step |
| `Workflows.FaultMeansInvalid` | kavalai/workflow/models.py:189-231 | no faulty graph is valid, so validation succeeds exactly on the valid ones |
| `Workflows.StartNodesTell` | kavalai/workflow/models.py:197-213 | the number of start nodes decides between none, the entry point and an ambiguity |
| `Workflows.ValidGraphIsClosed` | kavalai/workflow/models.py:215-249 | in a valid graph the entry point and every transition target are keys of the node map |
| `Engine.GotoIsTarget` | kavalai/workflow/engine.py:301-314 | the next node is among the declared transition targets, and it is the one that applies: the branch of the condition, the case of the value or the default, the only next node |
| `Engine.Towards` | kavalai/workflow/engine.py:301-314 | every declared target is taken under some condition or switch value, as its author says |
| `Engine.TraceIsPath` | kavalai/workflow/engine.py:414-436 | the trace of any run is a path of declared transitions from the start, no longer than the limit |
| `Engine.WalkIsRouted` | kavalai/workflow/engine.py:301-314 | in every run each step of the trace is the one that its predecessor sends the run to under the circumstances of that visit |
| `Engine.VisitsAreRouted` | kavalai/workflow/engine.py:414-436 | the same for visits, the one that fails included |
| `Engine.EndsOnlyAtEnd` | kavalai/workflow/engine.py:432-434 | an end step is only ever last; a run completes if and only if its last step is one and its bookkeeping raises nothing |
| `Engine.HaltsOnlyAtSwitch` | kavalai/workflow/engine.py:438-442 | the only early halt is at a switch with no matching case and no default |
| `Engine.LimitIffLongPath` | kavalai/workflow/engine.py:420-425 | some run raises the visit-limit error if and only if a path of limit + 1 steps leaves the start |
| `Engine.AcyclicNeverHitsLimit` | kavalai/workflow/engine.py:414-442 | without a reachable cycle no run raises it once the limit is at least the number of steps |
| `Engine.CycleHitsEveryLimit` | kavalai/workflow/engine.py:414-442 | with a reachable cycle some run raises it whatever the limit |
| `Engine.LimitIsAboutLoops` | kavalai/workflow/engine.py:420-425 | so whatever the limit (of at least the number of steps), some run exceeds it if and only if a cycle is reachable |
| `Engine.WorkflowEngine.Walk` | kavalai/workflow/engine.py:414-450 | the loop computes the specified trace and ending, every node lookup is defined, each step of the trace is where its predecessor sends the run, the status becomes completed exactly when an end step is reached, and the current node is the one visited last |
| `Engine.FailedIffOtherException` | kavalai/workflow/engine.py:386-394 | a run leaves the state failed if and only if a step it visits raises an exception that is not a WorkflowException |
| `Engine.ThrowingEndsRun` | kavalai/workflow/engine.py:414-436 | whatever a visited step raises is what ends the run, and an end step has been reached if and only if it is the one that raises |
| `Engine.OwnExceptionStaysRunning` | kavalai/workflow/engine.py:388-389 | a step that raises a WorkflowException leaves the state as it is: running, or completed after an end step |
| `Engine.FailingToolIsNotRecorded` | kavalai/functionkernel.py:48-48 | in a valid workflow of one tool call, a tool that raises leaves the state running |
| `Engine.WorkflowEngine.Run` | kavalai/workflow/engine.py:386-394 | the handlers give the status so described; an exception leaves `run` as a WorkflowException, an interruption as itself |
| `Diagrams.ArrowsAreTransitions` | kavalai/workflow/render.py:76-102 | the arrows of a valid workflow are the transitions the engine may take between steps with a name |
| `Diagrams.BackEdgesShowCycles` | kavalai/workflow/render.py:105-142 | a back edge within reach of the start exists if and only if a cycle does |
| `Diagrams.DiagramTellsAboutLimit` | kavalai/workflow/engine.py:420-425 | with a limit of at least the number of steps, some run exceeds it if and only if a back edge is drawn within reach, or the unnamed step is within reach and leads to a cycle |
| `Diagrams.NamedDiagramTellsAll` | kavalai/workflow/engine.py:420-425 | with every step named: if and only if a back edge is drawn within reach |
| `JsonPointers.DecodeUndoesEscape` | kavalai/tools/openapi_spec_parser.py:33-33 | decoding `~1` before `~0` inverts the escaping of every key |
| `JsonPointers.OrderOfDecodingMatters` | kavalai/tools/openapi_spec_parser.py:33-33 | the other order misreads exactly the keys that contain `~1` |
| `JsonPointers.StripRemovesKeys` | kavalai/tools/openapi_spec_parser.py:29-29 | what stripping `#` and `/` from the left does to joined keys |
| `JsonPointers.ParseOfEncode` | kavalai/tools/openapi_spec_parser.py:26-33 | the keys that any written pointer is read as |
| `JsonPointers.PointerRoundTrip` | kavalai/tools/openapi_spec_parser.py:25-33 | they are the written ones if and only if the first is non-empty and does not start with `#` (or is the only key, and empty) |
| `JsonPointers.ReferenceReachesPath` | kavalai/tools/openapi_spec_parser.py:25-41 | for such keys the reference reaches the node at the path, in every document |
| `JsonPointers.PointerToChild` | kavalai/tools/openapi_spec_parser.py:31-39 | one more key leads from a dictionary to that field, from a list to the element of that number, and raises everywhere else |
| `Strings.ToNatOfDecimal` | kavalai/tools/openapi_spec_parser.py:37-37 | a decimal numeral is read as its number |
| `JsonPointers.UnrepresentableMisses` | kavalai/tools/openapi_spec_parser.py:29-41 | for other keys some document shows the difference |
| `SpecParser.OpenApiSpecParser.constructor` | kavalai/tools/openapi_spec_parser.py:21-23 | if there is a resolved document, it is the one that has, path by path, the nodes that following references gets to; there is one if and only if every chain of references without repetition ends in one that resolves, and it is free of references if and only if no chain repeats one either |
| `SpecParser.OpenApiSpecParser.GetReferencedData` | kavalai/tools/openapi_spec_parser.py:25-41 | the loop over the parts computes what the reference resolves to, or raises; an external reference gives the error dictionary |
| `SpecParser.TargetUnseen` | kavalai/tools/openapi_spec_parser.py:52-56 | following a reference strictly lowers the number of references that can still be met for the first time |
| `SpecParser.SeenDoesNotMatter` | kavalai/tools/openapi_spec_parser.py:43-65 | where no reference is left, having seen fewer references gives the same output |
| `SpecParser.OutputFollowsOriginal` | kavalai/tools/openapi_spec_parser.py:43-65 | a node of the inlined output looks like, and is the expansion of, what following references to its path in the original reaches |
| `SpecParser.OriginalReachedInOutput` | kavalai/tools/openapi_spec_parser.py:43-65 | whatever following references reaches is in the output: the same leaf, the same keys, the same length, its children expanded |
| `SpecParser.MeaningPreserved` | kavalai/tools/openapi_spec_parser.py:43-65 | for every document that resolves, circular or not: the paths in the open of the output are those that following references, none twice, gets to the end of, and the output there is the expansion of the node got to; without leftover references that is so for all paths and following without memory |
| `SpecParser.OutputIsExpansion` | kavalai/tools/openapi_spec_parser.py:43-65 | the same for every part of the document and every set of references seen before |
| `SpecParser.ExpansionIsInlined` | kavalai/tools/openapi_spec_parser.py:43-65 | at every path, the output has a dictionary with the same keys, a list of the same length, the same leaf, or the left reference whole |
| `SpecParser.OnlyOneIsInlined` | kavalai/tools/openapi_spec_parser.py:43-65 | no other document has that property |
| `SpecParser.ExpandsIff` | kavalai/tools/openapi_spec_parser.py:43-65 | the expansion raises if and only if a chain of references without repetition ends in one that does not resolve, or a `$ref` met is not a string |
| `SpecParser.InlinedIffSound` | kavalai/tools/openapi_spec_parser.py:43-65 | everything is inlined if and only if no chain of references repeats one, all of them resolve and every `$ref` met is a string |
| `SpecParser.LeftoverIsCircular` | kavalai/tools/openapi_spec_parser.py:50-51 | a reference left in the open occurs earlier on its own expansion chain |
| `Lanes.OrganizeIntoLanes` | frontend/src/app/components/workflows-page/workflows-page.ts:162-196 | every run once, no overlap inside a lane, no earlier lane free, and no arrangement has fewer lanes |
| `Lanes.OrganizeArranges` | frontend/src/app/components/workflows-page/workflows-page.ts:162-196 | within a lane runs are in order and more than 60 s apart |
| `Lanes.FirstFit` | frontend/src/app/components/workflows-page/workflows-page.ts:179-192 | every lane before a run's own was still in use when the run began |
| `Lanes.NewLaneOnlyIfAllBusy` | frontend/src/app/components/workflows-page/workflows-page.ts:179-192 | a lane is opened only when the last run of every lane is within 60 s |
| `Lanes.LanesEqualLargestClique` | frontend/src/app/components/workflows-page/workflows-page.ts:162-196 | the number of lanes is the size of the largest set of mutually overlapping runs |
| `Lanes.CliqueNeedsLanes` | frontend/src/app/components/workflows-page/workflows-page.ts:162-196 | every arrangement needs a lane for each of mutually overlapping runs |
| `Lanes.NoArrangementIsSmaller` | frontend/src/app/components/workflows-page/workflows-page.ts:162-196 | no arrangement is smaller than the one computed |
| `Retrieval.ExactIsFirstPerSource` | kavalai/rag/postgres.py:758-776 | over all rows, the first row of each source in order of distance is its closest |
| `Retrieval.ExactRankingMeans` | kavalai/rag/postgres.py:758-779 | the exact ranking has one row for each source, at its smallest distance, in order of distance and then id |
| `Retrieval.KeepBestIsPrefix` | kavalai/rag/postgres.py:739-779 | the windowed answer is the exact ranking of sources, cut at the number of sources in the window and at top_k |
| `Retrieval.KeepBestExactIff` | kavalai/rag/postgres.py:739-779 | it is the true top_k if and only if the window shows that many sources, or all there are |
| `Retrieval.TenPerSourceIsExact` | kavalai/rag/postgres.py:739-743 | the answer is exact whenever no source has more than ten matching rows |
| `Retrieval.ExactForAllTablesIff` | kavalai/rag/postgres.py:739-779 | it is exact for all tables of at most n rows a source if and only if n * (top_k - 1) is below ten times top_k or below a hundred |
| `Retrieval.CrowdIsMissed` | kavalai/rag/postgres.py:739-743 | at the bound, a table on which it is not exact |
| `Retrieval.FewPerSource` | kavalai/rag/postgres.py:743-743 | rows of few sources with few rows each are few |
| `Pagination.IterEntries` | kavalai/rag/postgres.py:982-1012 | the loop yields the specified pages, in strictly increasing order of id |
| `Pagination.EntriesIncrease` | kavalai/rag/postgres.py:982-1012 | ids increase strictly over all batches, so no row is yielded twice, whatever happens to the table in between |
| `Pagination.EntriesWereThere` | kavalai/rag/postgres.py:982-1012 | every row yielded was in the table for one of the batches read |
| `Pagination.NothingMissed` | kavalai/rag/postgres.py:982-1012 | a row that is there for every batch is yielded |
| `Pagination.ScanContinues` | kavalai/rag/postgres.py:984-989 | what follows a page is the scan from its last id |
| `Pagination.PageIsFull` | kavalai/rag/postgres.py:984-989 | a page is the beginning of the scan and as long as the batch size allows |
| `Pagination.PagesEqualScan` | kavalai/rag/postgres.py:969-1012 | on an unchanging table the iteration ends, with one sorted scan if and only if the batch size is not 0 or there is nothing to scan |
| `Similarity.ComputeDefault` | kavalai/rag/base.py:249-279 | the dictionary and the nested loops fill every cell as specified, columns of repeated sources included |
| `Similarity.ComputeExact` | kavalai/rag/postgres.py:894-939 | every cell of the override is one minus the smallest distance of the source's chunks to the text, or the mean of one minus the distances; 0.0 without chunks |
| `Similarity.ExactCellMeans` | kavalai/rag/postgres.py:909-939 | the same, chunk by chunk, for every cell as specified |
| `Similarity.DefaultCellMeans` | kavalai/rag/base.py:222-279 | and for the default matrix when no source has more than a hundred chunks |
| `Similarity.CandidateCellIsExact` | kavalai/rag/base.py:273-277 | largest and mean similarity are one minus smallest and mean distance |
| `Similarity.CandidatesAreAll` | kavalai/rag/base.py:252-258 | with at most a hundred chunks per source the candidates are all matching rows |
| `Similarity.SmallSourcesExact` | kavalai/rag/base.py:222-279 | when no source has more than a hundred chunks, every cell of the default matrix is the exact one, for both aggregates |
| `Similarity.LargeSources` | kavalai/rag/base.py:232-236 | otherwise a source with a candidate has its exact "min" cell and at least its exact "avg" cell, and a source without one shows 0.0 |
| `Streaming.CompletingNeverFails` | kavalai/llm_clients/streamer.py:161-171 | in every run the name of an open streamer is on the list, so completing raises only when repeated; chunks taken and queued are those put, in order |
| `Streaming.StepKeepsInv` | kavalai/llm_clients/streamer.py:101-233 | every step keeps the active names the multiset of open streamers' names and loses no chunk |
| `Streaming.EndsIff` | kavalai/llm_clients/streamer.py:228-232 | the consumer is stopped exactly by an error chunk, and by a complete chunk when every streamer has completed |
| `Streaming.EveryStreamerPuts` | kavalai/llm_clients/streamer.py:101-201 | in every run of any streamers, what has been put is what the history calls for: each partial with all its streamer has written, or the value alone in delta mode, each completion once, each error |
| `Streaming.ReadsInOrder` | kavalai/llm_clients/streamer.py:203-233 | in every run the consumer is given the chunks in the order they were put; an error chunk is raised instead |
| `Streaming.ReceivedIsTaken` | kavalai/llm_clients/streamer.py:214-233 | over every run, what was handed out is what was taken from the queue, errors apart |
| `Streaming.DrainReachesEndIff` | kavalai/llm_clients/streamer.py:231-232 | with all streamers completed, the consumer reads the queue to its end if and only if it is still reading and there are only partial chunks before the last |
| `Streaming.LastCompletionDecides` | kavalai/llm_clients/streamer.py:214-233 | when the last streamer completes, everything will be delivered if and only if the consumer is still reading and only partial chunks are waiting |
| `Streaming.TwoStreamersCanLoseChunks` | kavalai/llm_clients/streamer.py:214-233 | two streamers that complete before anything is read: the consumer stops without the second one's chunk |
| `Streaming.OneStreamerDelivers` | kavalai/llm_clients/streamer.py:101-140 | one well-behaved streamer: its k-th partial holds the first k values together (or the k-th alone in delta mode), then the complete chunk; what was handed out and what waits are together all of it, in order, and the consumer stops only with everything handed out |
| `Streaming.OneStreamerIsDelivered` | kavalai/llm_clients/streamer.py:203-233 | once it has completed, reading on until the queue is read hands out every chunk that was put |
| `Streamers.Streamer.GetValueStreamer` | kavalai/llm_clients/streamer.py:161-178 | opening takes one step of the state machine |
| `Streamers.Streamer.StreamError` | kavalai/llm_clients/streamer.py:193-201 | reporting an error takes one step of the state machine |
| `Streamers.Streamer.GetNext` | kavalai/llm_clients/streamer.py:203-233 | reading takes one step of the state machine, reply included |
| `Streamers.ValueStreamer.StreamPartial` | kavalai/llm_clients/streamer.py:101-116 | writing takes one step of the state machine |
| `Streamers.ValueStreamer.StreamComplete` | kavalai/llm_clients/streamer.py:118-140 | completing takes one step of the state machine, and the name is always there to be removed |
| `Resolvers.WalkPath` | kavalai/resolvers.py:21-84 | the loop computes the specified walk |
| `Resolvers.SegmentLeadsTo` | kavalai/resolvers.py:42-59 | one segment leads to the entry with that key, to the element of that number, and to None everywhere else |
| `Resolvers.LengthSegment` | kavalai/resolvers.py:36-40 | the segment `length` counts characters, elements or entries |
| `Resolvers.PartsCompose` | kavalai/resolvers.py:32-84 | walking two stretches one after the other is walking both if and only if the first does not stop at a length |
| `Resolvers.PathsCompose` | kavalai/resolvers.py:21-84 | the same for dotted strings |
| `Resolvers.NoLengthNoStop` | kavalai/resolvers.py:36-40 | without a segment `length` a walk never stops early |
| `Resolvers.FindsFirstOccurrence` | kavalai/resolvers.py:87-129 | the search finds the first occurrence of the key, in document order, that does not hold None |
| `Resolvers.FindsOwnEntry` | kavalai/resolvers.py:97-99 | a dictionary that has the key gives its own entry |
| `Expressions.EvalNode` | kavalai/workflow/expressions.py:106-184 | the evaluator, loops included, computes the specified value or error, for every kind of node |
| `Expressions.LeafValues` | kavalai/workflow/expressions.py:107-111 | a constant is its value, a name the path of one segment in the context, an unsupported node an error |
| `Expressions.BinaryValue` | kavalai/workflow/expressions.py:152-156 | an arithmetic operation is Python's on the left and the right value, and the error of the left operand wins |
| `Expressions.SubscriptValue` | kavalai/workflow/expressions.py:117-125 | a subscript is Python's on the base and the key, None below None, errors from left to right |
| `Expressions.UnaryValue` | kavalai/workflow/expressions.py:144-150 | a negation or sign of the operand's value, or its error |
| `Expressions.AttributeValue` | kavalai/workflow/expressions.py:113-115 | an attribute is the path of one segment below the base's value |
| `Expressions.AndValue` | kavalai/workflow/expressions.py:127-135 | a conjunction is the first operand that is false or raises, else the last |
| `Expressions.OrValue` | kavalai/workflow/expressions.py:136-142 | a disjunction is the first operand that is true or raises, else the last |
| `Expressions.FalseValues` | kavalai/workflow/expressions.py:127-142 | the values that count as false |
| `Expressions.OneLinkValue` | kavalai/workflow/expressions.py:158-170 | a comparison is Python's on the left and the right value, errors from left to right |
| `Expressions.DisplayValue` | kavalai/workflow/expressions.py:172-176 | lists and tuples hold the values of their elements in order, or raise the first error |
| `Expressions.DictionaryValue` | kavalai/workflow/expressions.py:178-182 | a dictionary display stores its entries in order into an empty dictionary |
| `Expressions.DictionaryRaises` | kavalai/workflow/expressions.py:178-182 | the first entry that raises, in its key, its value or on being stored, ends it with that error |
| `Expressions.ChainIsPath` | kavalai/workflow/expressions.py:110-115 | an attribute chain is the dotted path of the context, unless a length is measured before the last name |
| `Expressions.ChainedComparison` | kavalai/workflow/expressions.py:158-170 | a chained comparison has the value and the error of the conjunction of its links |
| `Expressions.NotAndIsOrNot` | kavalai/workflow/expressions.py:127-150 | negating a conjunction is the disjunction of the negations, errors included |
| `Expressions.NotOrIsAndNot` | kavalai/workflow/expressions.py:127-150 | negating a disjunction is the conjunction of the negations, errors included |

## Left out

- Which boxes a curve between rows that are not adjacent crosses, beyond `Crossings.BowedMisses`.
- Which of the boxes whose left side falls between the bounds of `Crossings.ReachInSourceRow` (0.02 px plus 0.0002 of the way to the target) are crossed; on the grid `Crossings.ReachIsExactNearby` leaves none open among the next fifteen boxes.
- Exceptions raised while results are converted for the state or the engine's resources are closed.
- SVG text, escaping, truncation and colours of diagrams, and the transition labels; the order in which a switch lists its cases (`Diagrams` relates sets of targets).
- Rounding: pixels, distances and similarities are real numbers, where the source uses floating point.
- Negative rows: `Layout.PlaceBoxes` takes rows as natural numbers, which is what `Depths.AssignDepths` produces.
- Execution of LLM, agent and function steps, contexts and templates: the oracle of `Engine` says what a step's work raises, if anything, and what a condition evaluates to.
- `evaluate_bool` and `evaluate_value`, which apply Python's `bool` and `str` to what an expression evaluates to.
- Which target an unknown-target error mentions, and the texts of error messages.
- Dictionary keys that are not strings, and digits outside ASCII in pointer parts and paths.
- Which of several errors a document raises first: `SpecParser.ResolveAll` only says that it raises.
- References below a reference that is left in place: the source does not look there, and `SpecParser.LeftoverIsCircular` speaks of references in the open.
- Runs without a valid creation time in `Lanes`.
- SQL, sessions, the collection registry, approximate index scans, embedding computation and the conversion of stored vectors.
- Retried attempts, timeouts (they change nothing but the caller) and JSON repair in `Streaming`, where repair is an arbitrary function.
- Attributes of Python objects and pydantic models in `Resolvers`; parsing in `Expressions`, where Python's operators, storing into a dictionary among them, are parameters.
- Token statistics, task logs, the HTTP, MCP and database layers and the remaining user interface.
