# Verified model of the assembly and source census tools

The repository measures its compressor with small program analyses under `tools/`. They read emitted
assembly or Rust source and print numbers that decide changes. This project models those analyses in
Dafny and proves what the numbers mean. Every search, fixpoint, walk and lexer below is a method with
loops, proved against an independent definition (paths, walks, step-by-step execution, brace depth).

| file | models |
|---|---|
| `Asm.dfy` | classified assembly lines, instructions, regions |
| `Regions.dfy` | `blocks_of`, `cfg` and the entry point of `natural_loops` (`cfg.py`) |
| `Steps.dfy` | the edges of `cfg` against single steps through the listing |
| `Dominance.dfy` | `dominators` (`cfg.py`) against the path definition of dominance |
| `Loops.dfy` | `natural_loops` (`cfg.py`), the theory of natural loops, the innermost-loop choice of `score_inlined` |
| `Embedding.dfy`, `Merged.dfy` | `merged` (`cfg.py`) and its compositionality |
| `Segments.dfy` | the executed part of a region: `segs`, `feats` (`verdict3.py`), `seg` (`paths2.py`) |
| `ShortestWalks.dfy` | what all the Dijkstra copies share: one relaxation, the invariant, its consequences |
| `CycleSearch.dfy`, `CycleFacts.dfy` | `shortest` (`verdict3.py`), `walk_paths` (`score.py`) |
| `PlainCycles.dfy`, `Agreement.dfy` | the search of `paths2.py` and its agreement with `shortest` |
| `Prologue.dfy` | the entry-to-header search, one model for its three identical copies |
| `ExitPath.dfy`, `ExitLimits.dfy` | `exit_len` (`score.py`), how far it is off and when it is exact |
| `GuardWalk.dfy` | `first_transfer` (`panic_census.py`) and its agreement with execution |
| `Layout.dfy`, `Relayouts.dfy` | the guard count, and when walk and count are independent of block layout (`panic_census.py`) |
| `Tokens.dfy` | the tokens of a Rust source and the output `strip` should have |
| `Strip.dfy`, `TestMods.dfy`, `Census.dfy` | `strip`, `drop_test_mods` and their composition (`unsafe_census.py`) |

Modelling choices:

- Regular expressions, file reading and printing are outside the model. Instructions and lines arrive
  classified under the first pattern the code tries; the matches of the test-module pattern are an
  input; `str.isalnum` is a parameter.
- The `heapq` list is a set of pending entries. `RelaxKeeps` proves each push adds an entry that was not
  there, so a set loses nothing. `Pop` returns some least-cost entry and leaves ties open, so the
  results hold for every tie-break. `ExitPath` uses the real one: pairs of distance and
  region index. Likewise Python sets are visited in an arbitrary order.
- The default `1e18` of `dist.get` is kept as `UNREACHED`. The contracts of the searches speak of the walks
  that stay below it; `ShortestIsExact`, `PlainIsExact`, `PrologueIsExact`, `ExitFromIsExact` and
  `ExitLenIsExact` remove the restriction for code of any real size.
- A feature mask is a set of the seven features, so `need=38` is `{TagTest, Xor, PreEq}`.
- Nested loops are sometimes split into one method per level.

Findings where code and expectation part:

- Every edge out of a block that no root reaches counts as a back edge. Loops can then overlap without
  nesting (`OverlapThroughDeadBlock`), and a loop is strongly connected exactly when it holds no dead
  block (`StronglyConnectedIff`). Two loops of reachable headers nest exactly when they share a reachable
  block (`NestedIff`). The loop of a header that no root reaches, as after an unresolved jump table, is every
  block that leads to it (`DeadLoop`); when such loops nest follows from that (`DeadNestedIff`,
  `MixedNestedIff`).
- `paths2.py` applies the avoided labels to the header too, `shortest` does not
  (`AvoidedHeaderFails`, `AvoidedHeaderDiffers`). The two then agree only where there is no cycle
  (`AvoidedHeaderIff`).
- `exit_len` stops at the first region popped that holds a `ret`; it can exceed the shortest way out, for any
  two distances of a `ret` from the start of its region (`ExitLenOvershoots`). It exceeds none by more than the
  difference between the furthest distance reached and that way's own (`ExitLenBound`), so it is exact where
  all distances reached are equal (`ExitLenIsExact`). No weaker condition on the distances is enough
  (`ExactForIff`).
- `first_transfer` is documented to find the first control transfer. `jmpq *%rax` and `callq *%rax` match
  none of its patterns, so it steps over them. Where it falls into no copy of a label that a later line
  repeats, it agrees with execution if and only if it steps over no such line (`WalkIsExecutionIff`, for all
  labels at once `EveryWalkIsExecutionIff`). Short texts show both failures (`UnseenJumpMisleads`,
  `UnseenCallMisleads`).
- For the same reason the guard count can drift with block layout, which is documented not to happen. A walk
  that runs out of a block behind its indirect jump goes on in whichever block stands next; so it does where
  control itself runs off a block that is moved without a jump. For every choice of added jumps, the first
  transfer of a label is the same in all orders if and only if its walk meets no such block or no block answers
  at all (`WalkFixedIff`), and the total if and only if no conditional jump leads to such a walk or no block
  panics (`GuardsFixedIff`).
- With a repeated label `first_transfer` leaves the executed path (`RepeatedLabelMisleads`).
- `strip` says it keeps every newline; it loses one exactly when it meets a raw newline between two
  single quotes (`NewlinesKeptIff`). The text `'`, newline, `'` loses its newline (`QuotedNewlineMisleads`);
  a text without such a place keeps all (`NewlinesKeptWithout`).
- Braces inside the header of a test module count in the depth behind it. Unless a header closes braces it did
  not open, the depth is unchanged if and only if every outermost closed module has a header whose inner braces
  balance (`DepthKeptIff`), as all ordinary ones do (`KeptCharactersKeepDepth`).

## Model

| member | source | states |
|---|---|---|
| Regions.BlocksOf | tools/asmcensus/cfg.py:59-72 | the loop cuts the list as the recursive definition does |
| Regions.CutThenUnparse | tools/asmcensus/cfg.py:59-72 | no line is lost, moved or invented: the regions spell the list |
| Regions.UnparseThenCut | tools/asmcensus/cfg.py:59-72 | the regions are the only ones that spell the list |
| Regions.NearestTable | tools/asmcensus/cfg.py:88-93 | the jump table of an indirect jump is the one mentioned nearest before it within eight instructions, none otherwise |
| Regions.Cfg | tools/asmcensus/cfg.py:75-105 | an edge exists exactly for a fall-through or a direct or table jump to the last region of that label; predecessors mirror successors |
| Steps.EdgeIff | tools/asmcensus/cfg.py:75-101 | region u has an edge to region v if and only if some line of u, the label line of an empty region included, can step to the label of v: onwards from a plain line or an untaken branch, to the last line of its label from a branch or jump table, nowhere from `ret`, `ud2` or a tail jump |
| Regions.LoopsOf | tools/asmcensus/cfg.py:125-143 | on the graph of the regions, the loops found are exactly the natural loops |
| Dominance.Pass | tools/asmcensus/cfg.py:114-121 | one in-place pass only removes elements, strictly shrinks the total size if it changes anything, and otherwise leaves a fixpoint |
| Dominance.Dominators | tools/asmcensus/cfg.py:108-122 | at exit dom[v] is the set of blocks on every path from a root (block 0 or a block without predecessors) to v, all blocks if there is no path; at most (n-1)^2+1 passes |
| Dominance.RootsDominators | tools/asmcensus/cfg.py:114-119 | block 0 and the blocks without predecessors are dominated by themselves alone |
| Dominance.FixpointIsExact | tools/asmcensus/cfg.py:108-122 | every fixpoint above the dominators is exact, so the visiting order plays no part |
| Dominance.GreatestFixpoint | tools/asmcensus/cfg.py:108-122 | every solution of the equations is contained in the result |
| Dominance.ExactIsFixpoint | tools/asmcensus/cfg.py:108-122 | the result solves the equations |
| Dominance.DominatorsFormChain | tools/asmcensus/cfg.py:108-122 | of two dominators of a reachable block one dominates the other |
| Dominance.DomAntisymmetric | tools/asmcensus/cfg.py:108-122 | reachable blocks that dominate each other are equal |
| Loops.Flood | tools/asmcensus/cfg.py:133-141 | the backward flood finds the header and exactly the blocks that reach the latch without passing the header |
| Loops.NaturalLoops | tools/asmcensus/cfg.py:125-143 | headers are exactly the targets of edges they dominate; each loop is the header plus all blocks that reach a back-edge source without passing it |
| Loops.HeaderDominatesMembers | tools/asmcensus/cfg.py:130-142 | the header dominates every member, reachable or not |
| Loops.EnteredThroughHeader | tools/asmcensus/cfg.py:130-142 | an edge into a member other than the header starts inside the loop |
| Loops.ReachableMemberOnCycle | tools/asmcensus/cfg.py:129-143 | a reachable member lies on a cycle through the header inside the loop |
| Loops.StronglyConnectedIff | tools/asmcensus/cfg.py:129-143 | the loop of a reachable header is strongly connected within itself if and only if all members are reachable |
| Loops.NestedOrDisjoint | tools/asmcensus/cfg.py:125-143 | two loops sharing a reachable block are strictly nested |
| Loops.NestedIff | tools/asmcensus/cfg.py:125-143 | two loops of reachable headers are strictly nested if and only if they share a reachable block |
| Loops.DeadLoop | tools/asmcensus/cfg.py:114-142 | the loop of a header no root reaches is every block that leads to it |
| Loops.DeadStronglyConnectedIff | tools/asmcensus/cfg.py:129-143 | such a loop is strongly connected if and only if its header leads to whatever leads to it |
| Loops.DeadNestedIff | tools/asmcensus/cfg.py:125-143 | one such loop lies strictly inside another if and only if its header leads to the other and not back |
| Loops.MixedNestedIff | tools/asmcensus/cfg.py:125-143 | it lies inside the loop of a reachable header if and only if its header does, and never around it |
| Loops.OverlapThroughDeadBlock | tools/asmcensus/cfg.py:114-119 | a dead self-looping block makes two loops overlap without nesting |
| Loops.SmallestContaining | tools/asmcensus/score.py:125-129 | the least (size, header) among the eligible loops around a block; for a reachable block it lies inside every other eligible one |
| Embedding.DomUp | tools/asmcensus/cfg.py:108-122 | dominance in a graph carries over to a copy of it inside a larger graph |
| Embedding.DomDown | tools/asmcensus/cfg.py:108-122 | and back |
| Embedding.MemberShift | tools/asmcensus/cfg.py:125-143 | loop membership inside the copy is loop membership in the original |
| Merged.Merge | tools/asmcensus/cfg.py:43-52 | each body follows its synthetic label, in order |
| Merged.MergedAt | tools/asmcensus/cfg.py:43-52 | body k stands right behind the label `.LBB9999_k`, after all bodies before it |
| Merged.CutAppendBody | tools/asmcensus/cfg.py:43-72 | cutting after an appended body gives the regions so far, then the body's own, the first one labelled |
| Merged.BodyEmbeds | tools/asmcensus/cfg.py:43-105 | each body's region graph sits unchanged in the merged graph, entered from `ENTRY` at most |
| Merged.MergedLoops | tools/asmcensus/cfg.py:43-143 | when no body jumps to foreign labels and each ends control, the merged loops are the index-shifted disjoint union of the bodies' loops |
| Segments.Segs | tools/asmcensus/verdict3.py:24-35 | exactly the prefixes ending in a jump to the target, and the whole region when it falls through to it |
| Segments.SegIff | tools/asmcensus/verdict3.py:24-35 | a segment is a prefix whose last line branches to the target, or the whole region when it runs on into the target |
| Segments.CutScan | tools/asmcensus/paths2.py:29-38 | the scan stops just behind the first jump to the target, else at the end |
| Segments.CutIsShortest | tools/asmcensus/paths2.py:29-38 | the first segment is a prefix of every parallel one, and one of them |
| Segments.AddFeats | tools/asmcensus/verdict3.py:37-42 | features seen so far plus those of the segment |
| ShortestWalks.Pop | tools/asmcensus/verdict3.py:45 | removes one entry of least cost |
| ShortestWalks.RelaxKeeps | tools/asmcensus/verdict3.py:63-64 | a relaxation keeps the search invariant, settles its hop, touches only unexpanded states and pushes a new entry |
| ShortestWalks.TreeWalk | tools/asmcensus/verdict3.py:63-71 | recorded distances are costs of real walks along the predecessor links |
| ShortestWalks.NoWalkBeats | tools/asmcensus/verdict3.py:43-64 | no walk ends cheaper than what is expanded or pending |
| ShortestWalks.ShortWalk | tools/asmcensus/verdict3.py:43-64 | cutting repeats gives a walk no dearer with at most one hop per state |
| CycleSearch.Segment | tools/asmcensus/verdict3.py:51-64 | one segment: the call filter, the candidate cycle, or the relaxation, leaving nothing owed for that hop |
| CycleSearch.Search | tools/asmcensus/verdict3.py:43-64 | at the end every expanded node has all its hops settled and weighed against the best cycle |
| CycleSearch.Lift | tools/asmcensus/verdict3.py:43-64 | a walk over blocks is a walk over (block, features seen) of the same instructions |
| CycleSearch.Project | tools/asmcensus/verdict3.py:43-64 | and conversely, the second component being the features executed |
| CycleSearch.NoCycleBeats | tools/asmcensus/verdict3.py:43-66 | no admissible cycle, revisits included, is cheaper than the recorded best |
| CycleSearch.Chase | tools/asmcensus/verdict3.py:67-72 | the predecessor chase ends, also over empty segments, and yields the segments of a real cycle of the returned cost |
| CycleSearch.Tally | tools/asmcensus/verdict3.py:73-79 | the stores are the stack stores executed, the reads are the stack operands of all other instructions executed |
| CycleSearch.Shortest | tools/asmcensus/verdict3.py:17-80 | None exactly when no admissible cycle exists, else a real cycle, chained header to header, covering the needed features, of least cost |
| CycleFacts.EasierIsCheaper | tools/asmcensus/verdict3.py:17-66 | needing less, avoiding less or allowing calls never raises the cost nor loses the cycle |
| CycleFacts.DefaultNeverMatters | tools/asmcensus/verdict3.py:43-64 | if all nodes together hold fewer than 1e18 instructions, every cycle has one no dearer that the search considers |
| CycleFacts.CycleIff | tools/asmcensus/verdict3.py:43-66 | the cycles meant are the round trips along edges inside the loop that meet the header and the avoided regions nowhere on the way, execute each needed feature and, where calls are ruled out, no direct call |
| CycleFacts.ShortestIsExact | tools/asmcensus/verdict3.py:17-80 | then None means no round trip at all, the cost is the minimum over all of them, and segments, reads and stores are those of one with this cost |
| CycleFacts.WalkPaths | tools/asmcensus/score.py:75-85 | the loop is priced exactly when the pre-check price exists; skip <= miss <= pre and miss <= fused |
| CycleFacts.AskedRounds | tools/asmcensus/score.py:75-83 | the round trips priced avoid no region and may call |
| CycleFacts.Masks | tools/asmcensus/score.py:78-81 | the masks 4, 6, 38 and 22 name the features at their bits |
| PlainCycles.PlainShortest | tools/asmcensus/paths2.py:41-78 | the answer is a round trip over first segments that executes no call if calls are ruled out and enters no avoided region, the header included; it is the least of these below 1e18, and none is returned only if there is none below |
| PlainCycles.PlainCycleIff | tools/asmcensus/paths2.py:41-72 | those round trips are exactly the cycles the search considers |
| PlainCycles.PlainIsExact | tools/asmcensus/paths2.py:50-72 | if a segment per region stays below 1e18, None means no such round trip at all, and the cost is the minimum over all of them |
| Agreement.NoIndirectJumps | tools/asmcensus/paths2.py:24-35 | without indirect jumps in the loop every edge has a segment |
| Agreement.SameAsPlain | tools/asmcensus/paths2.py:50-72 | with nothing demanded the two searches both fail or return the same cost |
| Agreement.AvoidedHeaderFails | tools/asmcensus/paths2.py:41-47 | with the header avoided the plain search finds nothing |
| Agreement.AvoidedHeaderIff | tools/asmcensus/verdict3.py:49-50 | with the header avoided both searches fail or both succeed if and only if `shortest` has no cycle to find |
| Agreement.AvoidedHeaderDiffers | tools/asmcensus/verdict3.py:49-50 | a region behind `ENTRY` that jumps to itself, where only `shortest` finds the cycle |
| Prologue.PrologueLen | tools/asmcensus/score.py:20-41 | the least number of instructions on a `ret`-free walk below 1e18 from block 0 to the header, none exactly when there is no such walk |
| Prologue.PrologueIsExact | tools/asmcensus/score.py:20-41 | if a segment per region stays below 1e18, that is the least over all `ret`-free walks, and none exactly when no walk exists |
| Prologue.WaysIff | tools/asmcensus/score.py:20-41 | the walks searched are the chains of edges over first segments that execute no `ret` |
| Prologue.SameOverParallels | tools/asmcensus/fillloops.py:20-43 | that is also the least over every choice of parallel segments |
| Prologue.HeaderPopped | tools/asmcensus/verdict3.py:117-139 | stopping when the header is popped returns the least cost |
| ExitPath.ExitFrom | tools/asmcensus/score.py:54-67 | None exactly when no region with a `ret` is reached below 1e18, else the cost of a real way out to a nearest such region, by index among equally near ones |
| ExitPath.ExitFromIsExact | tools/asmcensus/score.py:54-67 | if a segment per region stays below 1e18, that is None exactly when no `ret` is reachable at all, and no way of any cost reaches one earlier |
| ExitPath.ExitLen | tools/asmcensus/score.py:44-72 | the least of those figures over all exit edges |
| ExitPath.ExitLenBound | tools/asmcensus/score.py:63-67 | with no `ret` that a way out reaches further than t into its region, the figure is at most t less a way's own last stretch above any way out of any cost over any exit edge |
| ExitPath.ExitLenIsExact | tools/asmcensus/score.py:44-72 | where every `ret` that a way out reaches stands equally far into its region, the figure is the least cost over all ways out of all exit edges, and none exactly when there is no way out |
| ExitLimits.ExitLenOvershoots | tools/asmcensus/score.py:63-67 | for all distances a < b a listing with a loop on which the figure is 1 + b although a way out of 1 + a exists |
| ExitLimits.ForkIsReal | tools/asmcensus/cfg.py:59-143 | those listings are what `blocks_of`, `cfg` and `natural_loops` hand over |
| ExitLimits.ExactForIff | tools/asmcensus/score.py:44-72 | the figure is the least way out on every listing of real size whose reached `ret`s stand at distances in a given set if and only if the set has at most one element |
| GuardWalk.Parse | tools/panic_census.py:54-62 | each label maps to its last line |
| GuardWalk.FirstTransfer | tools/panic_census.py:147-177 | the index scan computes the recursive walk and always terminates |
| GuardWalk.WalkIsExecutionIff | tools/panic_census.py:147-177 | if the walk falls into no label that a later line repeats, it gives the first transfer that step-by-step execution arrives at, and ("end", None) exactly when it arrives at none, if and only if it steps over no indirect jump or call |
| GuardWalk.EveryWalkIsExecutionIff | tools/panic_census.py:147-177 | in a text where no label falls into such a copy, this holds for all labels if and only if behind no label an indirect jump or call comes before the next line of a known kind |
| GuardWalk.UniqueRecorded | tools/panic_census.py:54-62 | a text with unique labels is of that kind |
| GuardWalk.UnseenJumpMisleads | tools/panic_census.py:46-48 | a block that ends in an indirect jump is answered with its neighbour's call in one layout, with a `ret` in the other, and executes neither |
| GuardWalk.UnseenCallMisleads | tools/panic_census.py:46-48 | an indirect call is stepped over and the `ret` behind it reported |
| GuardWalk.AgreesDetermines | tools/panic_census.py:147-177 | execution has only one such answer |
| GuardWalk.RepeatedLabelMisleads | tools/panic_census.py:158-161 | with a repeated label the walk reports another call than the one executed |
| Layout.CountGuards | tools/panic_census.py:238-246 | the number of lines that are conditional jumps whose target's first transfer is a call of a panic symbol |
| Layout.GuardsAreExecuted | tools/panic_census.py:20-24 | where the walk is execution: the number of conditional jumps to a label from which execution first arrives at a call of a panic symbol |
| Layout.ListingWalk | tools/panic_census.py:147-177 | the walk over a listing, lines before its first label included, depends only on the labelled blocks and what follows each |
| Layout.EveryTextIsListing | tools/panic_census.py:54-62 | every text is such a listing, with distinct blocks if its labels are unique |
| Relayouts.WalkKept | tools/panic_census.py:147-177 | a walk that runs out of no block left without a jump is the same when the blocks stand in any order, each with or without a jump to what it fell into |
| Relayouts.LayoutIndependent | tools/panic_census.py:20-24 | if every block the walk runs out of gets its jump, each order of the blocks leaves the first transfer of every label and the guard total unchanged |
| Relayouts.WalkFixedIff | tools/panic_census.py:22-24 | for every choice of added jumps: the first transfer of a label is the same in all orders if and only if its walk runs out of no block without one, or no block answers |
| Relayouts.GuardsFixedIff | tools/panic_census.py:22-24 | for every choice of added jumps: the guard total is the same in all orders if and only if no walk from a conditional jump's target runs out of a block without one, or no block ends in a panic call |
| Relayouts.ClearHasNoLoose | tools/panic_census.py:147-177 | where every walk is execution, the walk runs out of a block only where control does |
| Strip.CommentScan | tools/unsafe_census.py:37-45 | a block comment ends behind the first token, read left to right without overlap, where as many were closed as opened, else with the text |
| Strip.StringScan | tools/unsafe_census.py:57-60 | a string ends behind the first quote with an even run of backslashes before it, else with the text |
| Strip.RawEndsAtFirstDelimiter | tools/unsafe_census.py:49-56 | a raw string ends at the first delimiter with its number of hashes, else at the end of the text |
| Strip.RawIff | tools/unsafe_census.py:49-56 | a raw string is found exactly where one stands: `r` or `br`, hashes and a quote in at most eight characters, not behind a word character |
| Strip.CharLitFound | tools/unsafe_census.py:64-69 | every word of the character-literal pattern is found, with its length |
| Strip.CharLitReads | tools/unsafe_census.py:64-69 | and what is found is such a word |
| Strip.TokIff | tools/unsafe_census.py:26-72 | at each position the lexer blanks the token that stands there, and copies if none does |
| Strip.StripSource | tools/unsafe_census.py:26-72 | the source falls from left to right into tokens and single characters; the output has tokens blanked, newlines kept except in character literals, and the rest copied |
| Strip.StripIsLexed | tools/unsafe_census.py:26-72 | there is only one such output |
| Strip.NewlinesKeptIff | tools/unsafe_census.py:26-72 | newlines keep their places if and only if the loop meets no raw newline between two single quotes |
| Strip.NewlinesKeptWithout | tools/unsafe_census.py:26-72 | a text with no raw newline between two single quotes anywhere keeps all newlines |
| Strip.QuotedNewlineMisleads | tools/unsafe_census.py:64-69 | a text of three characters loses its newline |
| Strip.NonBlankWasCopied | tools/unsafe_census.py:26-72 | whatever is not blank in the output stood there in the source and starts no token |
| Strip.StripIdempotent | tools/unsafe_census.py:26-72 | stripping twice is stripping once |
| TestMods.FindClose | tools/unsafe_census.py:78-84 | the brace where the depth opened by the header first returns to 0 |
| TestMods.CloseIff | tools/unsafe_census.py:78-84 | that brace is the only one of this kind, and none is found exactly when the depth never returns to 0 |
| TestMods.EraseInPlace | tools/unsafe_census.py:85-87 | a stretch blanked in place, newlines kept |
| TestMods.DropTestMods | tools/unsafe_census.py:75-89 | the places from the start of a match to the brace where the depth it opens first returns to 0 are blank but for newlines, and nothing else has changed |
| TestMods.DropAt | tools/unsafe_census.py:75-89 | exactly the closed modules are blanked; newlines and all else stay; unclosed modules stay |
| TestMods.Nested | tools/unsafe_census.py:77-88 | a header inside a closed module closes inside it, when no header closes braces it did not open |
| TestMods.KeptCharactersKeepDepth | tools/unsafe_census.py:75-89 | when the inner braces of each header balance, a kept character keeps its brace depth, also with nested or unclosed modules |
| TestMods.DepthKeptIff | tools/unsafe_census.py:77-88 | when no header closes braces it did not open, a kept place keeps its depth if and only if every outermost closed module before it has a header whose inner braces balance |
| TestMods.OneHeaderIff | tools/unsafe_census.py:77-88 | behind one closed module with any header the depth is unchanged if and only if the braces of its header cancel out |
| TestMods.WholeDepthKept | tools/unsafe_census.py:75-89 | the text stays as balanced as it was |
| Census.LinesAgree | tools/unsafe_census.py:109-118 | the newlines counted before a match are those before the same place of the raw file |
| Census.OnlyLiveCodeIsSearched | tools/unsafe_census.py:109-116 | what is searched and not blank is code outside comments, literals and closed test modules |

## Left out

- The compressor and decompressor crates, benchmarks, command line and firmware: other programs.
- `symbol_bodies`, `instrs`, `parse` beyond `label_at`, demangling, and all regular expressions: input classification.
- `spill_stats`, `shape`, `cost`, the `packed` flag and the printed tables: sums and formatting over modelled values.
- `anon_in_block`, `_unescape`, `read_anon_locations`: they name the source line of a guard and do not affect the total.
- `splice`, `table` and the column counts of `census`: string assembly and pattern counting.
- `score_pointer`, `score_inlined` beyond the innermost-loop choice, `one`, `dump`: they call the modelled searches and format.
- TestMods.DropTestMods: takes the matches of the header pattern as an input and requires what `finditer` guarantees of them.
- ExitPath.ExitLen: not a minimum over all ways out, because it is not one (`ExitLenOvershoots`); `ExactForIff` says when it is.
- Python's recursion limit, which could stop `first_transfer` on a very long chain of labels.
- `riploads.py`, `loopsig.py`, `loopscan.py`, `copycat.py`, `premise_audit.py`, `scripts/twinguard.py`: heuristics without a sharp specification.
