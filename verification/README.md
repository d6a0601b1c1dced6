# Lugo, modelled and proved in Dafny

Lugo is a language server for Lua 5.4. This project models its most intricate parts and proves what they promise,
for all inputs, all runs or all reachable states. `dafny verify dfyconfig.toml` checks everything.

| file | part of Lugo |
|---|---|
| `LuaSyntax.dfy` | expression trees, their text, and the precedence-climbing parser of `parser/parser.go` |
| `LuaEvaluation.dfy`, `ConditionInversion.dfy` | short-circuit evaluation with effects; `invertCondition` (De Morgan with hand-placed parentheses) |
| `LuaExecution.dfy`, `EarlyReturn.dfy` | a statement language with effects, errors, `return` and to-be-closed variables; the early-return, swap and merge refactorings |
| `OppositeConditions.dfy`, `TerminalReports.dfy`, `ReturnPaths.dfy` | `isOppositeCondition` and `isTerminal`, the refactoring that relies on them, and when such reports are safe |
| `StatementText.dfy` | the text the refactorings write, statement by statement, and what it is read as |
| `Wrappers.dfy` | values that may be missing |
| `Uris.dfy` | byte-wise string order, sorted listings of sets, first-occurrence removal |
| `Graphs.dfy`, `DependencyGraph.dfy`, `CycleDetection.dfy`, `TopologicalSort.dfy` | the dependency graph, its depth-first cycle search and Kahn's algorithm |
| `Prefetch.dfy` | the depth-limited prefetch queue |
| `ResourceEdges.dfy` | the global index: scopes grouped by identity, with edge lists kept up to date incrementally |
| `SymbolIndex.dfy` | symbol tables and the index of their entries by hash key |
| `SourceCache.dfy` | the byte counter and least-recently-used eviction of sources |
| `ResourceGraph.dfy` | FiveM resources by root, by name and by provided alias |
| `Warmup.dfy` | the cancellable warm-up worker pool as an interleaved step relation |
| `AssetGlob.dfy` | glob matching with three rotating rows |
| `AstArena.dfy`, `AstFacts.dfy` | parent links of the syntax arena, and the explicit-stack pass over it |
| `Positions.dfy` | line offsets and LSP positions under three encodings |
| `Lexer.dfy` | the lexer and a declarative description of its lexemes |
| `Formatter.dfy`, `Relexing.dfy`, `FusingKinds.dfy` | the gap-rewriting formatter, and its output read back by the lexer |
| `BlockGrammar.dfy` | the block and bracket structure of Lua programs, which the formatter's scopes follow |
| `KindTables.dfy` | reserved words, classes of bytes, and what the formatter's tables of token kinds come to |
| `Rpc.dfy` | message framing |

Objects that the source updates in place are classes whose methods are proved against functions of the old
state; loops are loops; `invertCondition`, `formatStatement` and `flattenBlock`, which recurse and build a
result, are functions. The warm-up goroutines are steps of a state machine. A node or an entry that the source
compares by pointer is a value that carries what tells it apart.

Where the code does not keep a promise for all inputs, the model follows the code, and the exact condition under
which the promise holds is proved, with an input that breaks it:

- An inverted condition is the negation exactly when no unordered operands (a NaN, say) are compared on the way
  (`InversionCorrectIffOrdered`): `a < b` becomes `a >= b`, and both fail (`UnorderedNotNegated`).
- On each run, the early-return form of an `if`, as a tree, is right for every then branch exactly when the flipped
  condition compares no unordered operands (`FlipExact`) and an else branch reported terminal, if taken, does not
  fall through (`TerminalReportExact`). Inputs: `if a < b then f() end` with unordered operands
  (`UnorderedBreaksRewrite`); a constant comparison, always taken for true (`ConstantReportBreaksRewrite`); and
  `if f() then return elseif not f() then return end`, whose second call may answer otherwise
  (`OppositeReportBreaksRewrite`). A report on an else block is safe on every machine exactly when all paths of the
  block return (`ReportSafeExact`); on one run, a reported opposite is right whenever its operands answer as before
  (`OppositeRight`).
- The text of the early-return form, of a swap and of a merge is read as the tree that was meant exactly when no
  statement that starts with a bracket follows one that a bracket would go on with, in the blocks that are written
  anew (`EarlyReturnText`, `SwapText`, `MergeText`): semicolons are not written. In `if x then local a = b; (f)() end`
  the two statements become `local a = b(f)()` (`SemicolonLost`).
- Every eviction run brings the cache under its limit, whatever the map orders, exactly when the source under the
  empty URI, if there is one, and all newer ones fit together (`EvictionExact`, with the orders that stop in
  `EmptyUriStops`).
- A scope created after others already depend on its name starts with empty lists; the lists are reconciled
  exactly when there is nothing to list (`ResourceIndex.EnsureResource`, `LateScope`).
- A symbol added keeps the hash index exact exactly when it is not listed already and what it replaces had no key
  or the same one; a name re-added under another key leaves its old entry (`AddSymbolExact`,
  `KeyChangeLeavesStale`).
- A registration makes a live name unknown exactly when it renames the resource that holds a shared name
  (`NameLossExact`, `NameIsLost`).
- A prefetch of some depth enqueues all that lies within it, in every graph of n vertices, exactly when the depth
  is at most 1 or at least n - 1 (`DepthExact`, with the graphs that miss a vertex in `SmallDepthMisses`).
- A comment that opens no long bracket runs to the end of its line exactly unless it starts with a bracket and
  equals signs that the line goes on after: `--[=x` ends before the `x` (`LineCommentExact`,
  `BrokenBracketStops`).
- Formatting a document deletes program text exactly when the source has a byte order mark, is cut short by a NUL
  byte, or has an illegal token before its last token (`FormatExact`, `IllegalByteLoses`). It stops with an index
  out of range exactly when a line closes more than is open while nothing is (`Format`, `StrayEndFails`); no well
  nested source does it (`WellNestedFormats`).
- The formatted text has the same tokens exactly when no two tokens that end up side by side are of fusing kinds and
  the last token is not left open, both told from the source (`RelexKinds`): `Minus Minus` and `BitXor` before `=`
  or `==` in unary position, `Dot` before `Dot`, `Concat`, `Vararg` or `Number`, `Concat Dot`, `Number` before `Dot`
  or `Vararg`, `Colon` before `Colon` or `DoubleColon`, and `LBrack` before `LBrack`, a long string, `=` or `==`
  (`PairExact`). `- -x` becomes a comment (`MinusesFuse`).

## Model

| member | source | states |
|---|---|---|
| `LuaSyntax.ParseEmitted` | parser/parser.go:905-1037 | printing a tree that is well formed at a level and parsing at that level rebuilds it, whatever weaker text follows |
| `LuaSyntax.ParserImage` | parser/parser.go:905-1037 | whatever the parser accepts is a well-formed tree whose text is exactly what was consumed |
| `LuaSyntax.ParseRoundTrip` | parser/parser.go:9-62 | parsing a text gives a tree if and only if the tree is well formed under Lua's precedence and associativity and the text is its printing |
| `LuaSyntax.PrecedenceExact` | parser/parser.go:33-62 | the binding powers are the places of the operators in the list of section 3.4.8 of the Lua 5.4 Reference Manual |
| `LuaSyntax.TwoOperators` | parser/parser.go:1012-1037 | of two operators in a row the one listed later binds its operands, and of one place the left one, but for `..` and `^` |
| `LuaSyntax.UnaryThenBinary` | parser/parser.go:905-940 | a unary operator takes in a power to its right and no other operator |
| `LuaEvaluation.EvalExtends` | lsp/refactor.go:2862-2956 | evaluating a condition only extends the history of effects, with operands of that condition |
| `ConditionInversion.InverseWellFormed` | lsp/refactor.go:2862-2956 | the parentheses chosen while inverting suffice where the code puts the inverse: alone or before an `or`; after an `or` or before an `and` unless the condition was itself an `and`; and after an `and` where the condition stood there too |
| `ConditionInversion.InvertedTextParses` | lsp/refactor.go:2862-2956 | the inverted text of every well-formed condition parses back to the intended tree |
| `ConditionInversion.InverseNegates` | lsp/refactor.go:2862-2956 | if no unordered operands are compared, the inverse evaluates the same operands in the same order and takes the other branch |
| `ConditionInversion.UnorderedShows` | lsp/refactor.go:2935-2948 | comparing unordered operands always makes the inverse differ from the negation |
| `ConditionInversion.InversionCorrectIffOrdered` | lsp/refactor.go:835-846 | the replaced text parses, and is the negation of the condition if and only if no unordered operands are compared on the way |
| `ConditionInversion.UnorderedNotNegated` | lsp/refactor.go:2935-2948 | on unordered operands `a < b` and its inversion `a >= b` both fail |
| `EarlyReturn.CheckSafety` | lsp/refactor.go:2594-2630 | the walk up the tree answers true exactly for statements in tail position of a function body or chunk |
| `EarlyReturn.TailExact` | lsp/refactor.go:2594-2630 | a statement is in tail position if and only if nothing follows it or any statement that encloses it, and none of these is a loop |
| `EarlyReturn.FormatOutsideTail` | lsp/refactor.go:2632-2805 | outside tail position the tree of a statement is not rewritten, however deeply it nests |
| `EarlyReturn.FormatFlat` | lsp/refactor.go:2632-2860 | the form of a tail statement is flat, at every depth: it ends in no `if` but one with an `elseif`, whose branches are flat in turn, or a guard that ends in a return or a terminal statement |
| `EarlyReturn.GuardBodyExact` | lsp/refactor.go:2697-2745 | the guard holds the statements of the else branch, and a return after them exactly if the last one is not terminal |
| `EarlyReturn.FinishLeave` | lsp/refactor.go:2632-2805 | returning nothing before or after the enclosing blocks are left, closing handlers included, is the same |
| `EarlyReturn.TailFormat` | lsp/refactor.go:2632-2805 | on every run that meets no slip (unordered operands in a flipped condition, or an else branch that falls though reported terminal), the recursive early-return form of a tail statement gives a call the same effects and outcome |
| `EarlyReturn.TailFlatten` | lsp/refactor.go:2807-2860 | the same for a block flattened at the tail |
| `EarlyReturn.SameInTail` | lsp/refactor.go:2594-2630 | on every run of a body, statements that observe alike when the run gets to a tail position, if it does, may replace each other there |
| `EarlyReturn.EarlyReturnPreserves` | lsp/refactor.go:848-863 | every run of a function body, on every machine, that meets no slip at the rewritten statement has the same effects in order and the same outcome with the early-return form in place, as a tree; `StatementText.EarlyReturnText` says when its text is read as that tree |
| `StatementText.ReadsExact` | lsp/refactor.go:2807-2860 | a text of single statements, do blocks and ifs on lines of their own is read as written, if and only if no statement that starts with a bracket directly follows one that a bracket would go on with |
| `StatementText.CallableEndExact` | lsp/refactor.go:2807-2860 | by section 3.3.1 of the Lua 5.4 Reference Manual a bracket on the next line goes on with a value; it does if and only if its last token ends a name, a call or an index, or is a closing bracket |
| `StatementText.JoinedExact` | lsp/refactor.go:2807-2860 | so a statement that starts with a bracket is read into a local declaration or a return before it exactly after such a token, or after `return` alone, and never into a do block or an `if` |
| `StatementText.EarlyReturnText` | lsp/refactor.go:848-863 | the text of the early-return form is read as that form, if and only if no such pair of statements, which only a semicolon kept apart, is in the blocks that are written anew |
| `StatementText.SemicolonLost` | parser/parser.go:243-248 | the text written for `if x then local a = b; (f)() end` is read as one statement where there were two |
| `EarlyReturn.TerminalReportExact` | lsp/refactor.go:2632-2805 | on a run without unordered operands, and with an else branch reported terminal, the guarded form is right for every then branch if and only if the else branch is not taken or does not fall through |
| `EarlyReturn.FlipExact` | lsp/refactor.go:2697-2745 | on each run, the guarded form is right for every then branch and every else branch that keeps its report, if and only if the flipped condition compares no unordered operands |
| `EarlyReturn.UnorderedBreaksRewrite` | lsp/refactor.go:2697-2745 | with unordered operands `if a < b then f() end` does not run `f`, and its early-return form does |
| `OppositeConditions.SameStripped` | lsp/utils.go:627-663 | two well-formed conditions have equal texts once outer brackets are stripped, matching or not, if and only if they are the same or one is the other in brackets and the other's text is not itself bracketed |
| `OppositeConditions.NotOfMeans` | lsp/utils.go:627-663 | a condition reported as the opposite of another is its `not`, brackets and operands written alike apart |
| `OppositeConditions.NotOfExact` | lsp/utils.go:627-663 | a condition is reported as the `not` of another if and only if it is a `not` of one written alike, brackets around one of them apart if the other is not itself bracketed |
| `OppositeConditions.NotIsOpposite` | lsp/utils.go:627-663 | a condition and its `not`, with or without brackets, are reported as opposites, either way round |
| `OppositeConditions.SameAnswers` | lsp/utils.go:627-663 | expressions written alike whose operands answer alike have the same outcome and use up the same answers |
| `OppositeConditions.OppositeRight` | lsp/utils.go:608-611 | after a condition failed, its reported opposite succeeds on every run on which its operands answer as those of the first did, whatever else they depend on |
| `OppositeConditions.PlainOpposites` | lsp/utils.go:627-663 | which they always do if they depend on their text and the variables in scope only |
| `TerminalReports.TerminalNeverFalls` | lsp/utils.go:519-625 | a statement reported terminal does not fall through on any run that decides no condition against its reported constant and lets no condition fail together with its reported opposite |
| `TerminalReports.IfTerminalExact` | lsp/utils.go:543-621 | an `if` is reported terminal if and only if some branch is always taken, as far as constants, an else or an opposite of the first condition tell, and every branch that may be taken is terminal |
| `TerminalReports.BlockTerminalExact` | lsp/utils.go:533-542 | a block is reported terminal if and only if one of its statements is |
| `TerminalReports.EarlyReturnWithIsTerminal` | lsp/refactor.go:848-863 | with that analysis deciding where returns go, every run is preserved that compares no unordered operands in a flipped condition and meets no wrong report, of a constant or an opposite, in an else branch taken for terminal |
| `TerminalReports.ConstantReportBreaksRewrite` | lsp/eval.go:451-462 | with constant comparisons always true, a concrete body changes its behaviour |
| `TerminalReports.OppositeReportWrong` | lsp/utils.go:627-663 | `if f() then return elseif not f() then return end` is reported terminal and falls through when the calls answer differently |
| `TerminalReports.OppositeReportBreaksRewrite` | lsp/utils.go:627-663 | as an else branch, it makes a concrete body change its behaviour |
| `ReturnPaths.NeverFallsExact` | lsp/utils.go:519-625 | a block falls through on no machine if and only if all its paths return |
| `ReturnPaths.ReportSafeExact` | lsp/refactor.go:2732-2739 | taking an else block for terminal is right on every machine and for every then branch, unordered operands apart, if and only if all its paths return |
| `EarlyReturn.SwapPreserves` | lsp/refactor.go:1089-1147 | in tail position, swapping the branches of an if preserves every run of the body that compares no unordered operands in its condition and meets no slip in the branch it takes |
| `EarlyReturn.SwapExecutes` | lsp/refactor.go:1089-1147 | elsewhere the swapped statement executes identically wherever its condition compares no unordered operands |
| `EarlyReturn.SwapExchanges` | lsp/refactor.go:1089-1147 | the swapped `if` decides the other way if and only if no unordered operands are compared, and has both branches exchanged: as they were outside tail position, flat in it |
| `StatementText.SwapText` | lsp/refactor.go:1089-1147 | the text of the swapped if is read as it, if and only if neither branch has such a pair |
| `EarlyReturn.MergedConditionDecides` | lsp/refactor.go:955-974 | the joined condition text parses, and decides like testing the outer condition and then the inner one |
| `EarlyReturn.MergePreserves` | lsp/refactor.go:936-1003 | in tail position, merging two nested ifs preserves every run of the body that meets no slip inside the merged body |
| `EarlyReturn.MergeOutsideTail` | lsp/refactor.go:936-1003 | elsewhere the merged statement executes identically, on every machine |
| `EarlyReturn.MergeOne` | lsp/refactor.go:936-1003 | one `if` is left, which decides as the two in turn, around the body as it was outside tail position and flat in it |
| `StatementText.MergeText` | lsp/refactor.go:936-1003 | the text of the merged if is read as it, if and only if its body has no such pair |
| `DependencyGraphs.DependencyGraph.AddResource` | lsp/global_index.go:842-858 | a vertex is added without edges; an empty URI is not; both directions stay exact converses without self-edges |
| `DependencyGraphs.DependencyGraph.SetDependencies` | lsp/global_index.go:860-878 | the outgoing edges of one vertex are replaced; both directions stay exact converses without self-edges |
| `DependencyGraphs.DependencyGraph.DependentList` | lsp/global_index.go:893-904 | the sorted listing of exactly the vertices that depend on the given one |
| `DependencyGraphs.WithDependenciesMeaning` | lsp/global_index.go:860-878 | afterwards the vertex has exactly the listed non-empty other targets, every other vertex keeps its edges, and new vertices have none |
| `CycleDetection.StackCycle` | lsp/global_index.go:963-1013 | the reported list is the stack from the repeated vertex on, closed by it |
| `CycleDetection.CycleSearch.Visit` | lsp/global_index.go:963-1013 | a visit finishes its vertex and leaves the stack as it was; the vertices it enters come next in the depth-first order, and every dependency of a finished vertex is ranked below it unless that edge closes a reported list |
| `CycleDetection.CycleSearch.Report` | lsp/global_index.go:975-992 | whatever was reported before, the stack from the met vertex on is appended, closed by that vertex, and no other edge counts as closing from then on |
| `CycleDetection.OrderUnique` | lsp/global_index.go:963-1013 | a graph has one depth-first order that takes the least vertex first |
| `CycleDetection.DetectCycles` | lsp/global_index.go:963-1013 | the reported lists are loops along dependency edges, each following the search tree of the one depth-first order and closed by an edge of its own, and without the closing edges the graph has no cycle |
| `CycleDetection.AllAccounted` | lsp/global_index.go:963-1013 | so every closed walk takes an edge that closes a reported list, and something is reported if and only if the graph has a cycle |
| `Graphs.StuckReachesCycle` | lsp/global_index.go:906-961 | a vertex of a set in which each has a dependency inside reaches a cycle |
| `Graphs.RankedIsAcyclic` | lsp/global_index.go:963-1013 | a graph whose edges all go down in rank has no cycle |
| `Uris.LeqMeaning` | lsp/global_index.go:1098-1100 | one string is sorted before another if and only if it is a prefix of it or has the smaller byte where they first differ |
| `TopologicalSorting.Release` | lsp/global_index.go:906-961 | one round keeps the counters equal to the unmet dependencies and the queue equal to the sorted listing of the ready vertices |
| `TopologicalSorting.TopologicalSort` | lsp/global_index.go:906-961 | the result is a permutation of the vertices: a prefix that always takes the ready vertex least in byte order, so dependencies come first, then the sorted listing of exactly the vertices that reach a cycle; the reported lists are those of the cycle search |
| `TopologicalSorting.PrefixAvoidsCycles` | lsp/global_index.go:906-961 | nothing in the prefix reaches a cycle |
| `TopologicalSorting.LeftoversTangled` | lsp/global_index.go:906-961 | when nothing is ready, what is left is exactly what reaches a cycle |
| `TopologicalSorting.CyclesTangle` | lsp/global_index.go:906-961 | there are leftovers if and only if the graph has a cycle |
| `Prefetching.PrefetchEngine.Enqueue` | lsp/prefetch.go:20-33 | the queue becomes the depth-limited closure, stays free of duplicates and equal to the queued set; a negative depth does nothing |
| `Prefetching.PrefetchEngine.ProcessQueue` | lsp/prefetch.go:56-84 | the queue is left empty and indexed in order: all of it with an index function, else the entries with a parsed document |
| `Prefetching.AmongMeaning` | lsp/prefetch.go:66-83 | of those exactly the queued ones are indexed, each once |
| `Prefetching.AmongPlaces` | lsp/prefetch.go:66-83 | they are indexed in the order of the queue |
| `Prefetching.EnqueuedSound` | lsp/prefetch.go:35-54 | the old queue stays in front, nothing is queued twice, and what is added lies within the depth |
| `Prefetching.EnqueuedInOrder` | lsp/prefetch.go:35-54 | a new vertex comes before all it brings in, and brings its dependencies in one after the other in the order of their listing |
| `Prefetching.EnqueuedComplete` | lsp/prefetch.go:35-54 | with a depth that covers all but one of the unqueued vertices, every newly queued vertex has its dependencies queued |
| `Prefetching.EnqueueReachesAll` | lsp/prefetch.go:20-54 | from an empty queue, a depth of at least the number of vertices less one enqueues exactly what is reachable, cycles included |
| `Prefetching.SmallDepthMisses` | lsp/prefetch.go:35-54 | for every depth of two or more and every larger size, a graph in which a vertex two steps away is missed |
| `Prefetching.DepthExact` | lsp/prefetch.go:20-54 | a depth enqueues all that lies within it in every graph of n vertices, if and only if it is at most 1 or at least n - 1 |
| `ResourceEdges.ResourceIndex.EnsureResource` | lsp/global_index.go:117-144 | a scope exists afterwards; reconciled lists stay so if and only if the scope existed or its URI is no endpoint of an edge |
| `ResourceEdges.ResourceIndex.Register` | lsp/global_index.go:411-458 | from any state, registering, renames and shared names included, sets exactly the edges of one identity and leaves stale exactly the other scopes that were stale under an identity it does not touch; so reconciled lists stay reconciled |
| `ResourceEdges.ResourceIndex.RefreshResourceEdges` | lsp/global_index.go:621-629 | the scopes of one identity, and no others, get the current lists |
| `ResourceEdges.ResourceIndex.Rename` | lsp/global_index.go:595-619 | the scope moves to the group of its new identity, the grouping staying exact |
| `ResourceEdges.ResourceIndex.SyncResourceEdges` | lsp/global_index.go:631-640 | every scope gets the lists of its identity |
| `ResourceEdges.ResourceIndex.PruneResource` | lsp/global_index.go:514-541 | a scope goes away if and only if it is empty and isolated, and what is left is reconciled |
| `ResourceEdges.ChangeIsLocal` | lsp/global_index.go:621-629 | a change of the edges at one identity shows only at it and its old and new targets |
| `ResourceEdges.LocalRefreshSuffices` | lsp/global_index.go:411-458 | refreshing those identities alone equals reconciling everything |
| `ResourceEdges.RegisterSync` | lsp/global_index.go:411-458 | after a registration that may rename, the incremental refresh leaves nothing for a full one |
| `ResourceEdges.RegisterStale` | lsp/global_index.go:411-458 | a registration refreshes what it touches and leaves the rest as it was, stale or not |
| `ResourceEdges.LateScope` | lsp/global_index.go:117-144 | a scope for "b" made after "a" was registered as depending on it does not list its dependent |
| `SymbolIndex.Index.AddSymbol` | lsp/global_index.go:146-175 | the entry takes its place in the table and the hash index is updated as `Filed` says; without a name nothing changes |
| `SymbolIndex.AddSymbolExact` | lsp/global_index.go:146-175 | each key keeps listing each live entry once and nothing else, if and only if the entry is not live under its key already and what it replaces had no key or the same one |
| `SymbolIndex.RunExact` | lsp/global_index.go:146-175 | every run with new entries in which a place keeps its key leaves the hash index exact |
| `SymbolIndex.KeyChangeLeavesStale` | lsp/global_index.go:161-168 | a name re-added under another key leaves the replaced entry listed under the old key, though it is live nowhere |
| `Uris.RemoveOne` | lsp/global_index.go:816-828 | the list without the first occurrence, in order |
| `SourceCache.TotalUpdate` | lsp/global_index.go:482-498 | writing one entry changes the sum of source bytes by that entry alone |
| `SourceCache.ScanFindsLeastRecent` | lsp/global_index.go:557-578 | in every map order the scan finds the least recently used source, if that is not under the empty URI |
| `SourceCache.ScanExact` | lsp/global_index.go:557-578 | the scan finds it in every order if and only if it is not under the empty URI |
| `SourceCache.EmptyUriStops` | lsp/global_index.go:557-578 | map orders in which a run stops over the limit, if that source and the newer ones do not fit |
| `SourceCache.EvictionExact` | lsp/global_index.go:557-578 | every eviction run ends within the limit, whatever the map orders, if and only if the source under the empty URI and all newer ones fit together |
| `SourceCache.Cache.EvictSource` | lsp/global_index.go:500-512 | a source with bytes is dropped and the counter stays the exact sum |
| `SourceCache.Cache.EvictLRU` | lsp/global_index.go:557-578 | a run in some map orders: exactly as many of the oldest sources go as are needed to fit the limit; the counter stays the exact sum |
| `SourceCache.Cache.SetSource` | lsp/global_index.go:482-498 | the counter is the exact sum and within the limit, every evicted source is older than every survivor, and the source just set survives if it fits alone |
| `SourceCache.JustSetStays` | lsp/global_index.go:482-498 | the most recent source is never evicted unless it alone exceeds the limit |
| `ResourceGraph.FiveMResourceGraph.RemoveNode` | lsp/fivem.go:945-963 | the node leaves all three maps; every alias list stays exactly the live providers in order, every name entry live |
| `ResourceGraph.FiveMResourceGraph.Register` | lsp/fivem.go:965-1005 | a registration is taken if and only if no higher-precedence manifest holds its root, and then replaces what is there; every alias list stays exactly the live providers, with multiplicity, by name then root |
| `ResourceGraph.FiveMResourceGraph.Resolve` | lsp/fivem.go:1024-1042 | the live node of that name, else the first live provider by name then root, else nothing exactly when nothing provides it |
| `ResourceGraph.PrecedenceExact` | lsp/fivem.go:63-72 | an fxmanifest outranks every other manifest, and a `__resource.lua` an unknown one |
| `ResourceGraph.BeforeMeaning` | lsp/fivem.go:902-930 | providers are ordered by name and then by root, both byte by byte |
| `ResourceGraph.ProvidersDetermined` | lsp/fivem.go:965-1005 | the alias lists depend on the live nodes only, not on the order of registration |
| `ResourceGraph.HeadIsFirstProvider` | lsp/fivem.go:1038-1040 | the head of an alias list is the least live provider, and there is one exactly when the alias is provided |
| `ResourceGraph.RunKeepsHighest` | lsp/fivem.go:970-977 | after any run, the live node at a root is the last of those of highest precedence registered there |
| `ResourceGraph.NameLossExact` | lsp/fivem.go:949-952 | a registration makes a live name unknown if and only if it renames the holder of a name that another root carries |
| `ResourceGraph.NameIsLost` | lsp/fivem.go:949-952 | three registrations after which a live name is not found |
| `Warmup.StepKeeps` | lsp/warmup.go:35-122 | every step of every goroutine keeps the invariant: each position handed out is indexed once or held once, and only the latest live run holds the cancel handle |
| `Warmup.BehaviourKeeps` | lsp/warmup.go:22-122 | the invariant holds in every state of every interleaving |
| `Warmup.IndexedAtMostOnce` | lsp/warmup.go:35-107 | no position of a run is indexed twice or without a URI, a run that completes uncancelled has indexed every position with one, and a single worker does so in order |
| `Warmup.LatestRunKeepsHandle` | lsp/warmup.go:86-122 | the cancel handle is stored exactly for the latest run while it is neither completed, cancelled nor being stopped: an older run never clears it |
| `Warmup.RunStepsEnd` | lsp/warmup.go:35-107 | each step of a run's goroutines uses up a bound, so every run ends, cancelled or not |
| `Warmup.RunNeverStuck` | lsp/warmup.go:35-107 | until it has completed, some goroutine of a run can take a step |
| `Warmup.CancelledCompletes` | lsp/warmup.go:62-107 | once cancelled, a run can close its channel and complete while indexing nothing but what its workers already hold |
| `Warmup.CancelledWhy` | lsp/warmup.go:35-55 | a run is cancelled only by a later Start or by a Stop that called its cancel function |
| `Warmup.StopEndsAll` | lsp/warmup.go:109-122 | once Stop has called what it took, and nothing was started since, every run is cancelled or complete |
| `Warmup.RunAsConfigured` | lsp/warmup.go:22-79 | a run has the number of workers set last before it started, two if that was not positive, and with one it indexes its list in order |
| `Warmup.RunAsAtFirst` | lsp/warmup.go:18-55 | before a number is set, the one given at first counts, two if that is not positive |
| `AssetGlob.WildcardUnfolds` | lsp/fivem_asset_inventory.go:57-94 | a wildcard matches nothing or one more byte, not a slash within a segment |
| `AssetGlob.SuffixMatches` | lsp/fivem_asset_inventory.go:57-94 | the recurrence on suffixes is the declarative meaning of `*`, `**` and `?` |
| `AssetGlob.MatchGlob` | lsp/fivem_asset_inventory.go:57-94 | the three rotating rows decide the declarative meaning, for all patterns and candidates |
| `AstArena.Arena.AddNode` | ast/ast.go:361-390 | the node is appended and adopts exactly its children, and parents stay above their children |
| `AstFacts.ArenaIsWellShaped` | ast/ast.go:361-390 | every arena so built has the shape the pass needs |
| `AstFacts.LinkChildren` | lsp/fivem_ast_facts.go:54-62 | the first-child and next-sibling links list every node's children |
| `AstFacts.Turn` | lsp/fivem_ast_facts.go:64-99 | one round of the explicit stack keeps its invariant and makes progress |
| `AstFacts.Traverse` | lsp/fivem_ast_facts.go:64-99 | every node is visited, listed once after its children, and has the first function and call on the walk to the root |
| `AstFacts.GatheredFromChildren` | lsp/fivem_ast_facts.go:101-135 | the facts of a subtree are a node's own and those of its children's subtrees |
| `AstFacts.PropagateFacts` | lsp/fivem_ast_facts.go:101-135 | one pass along the postorder leaves each node the facts of exactly its descendants and itself |
| `AstFacts.NewFacts` | lsp/fivem_ast_facts.go:29-143 | nearest function, enclosing call and loop facts of every node are those of the walks the pass replaces |
| `Positions.DecodeTruncated` | ast/ast.go:149-213 | cutting the text behind a decoded rune does not change it, even an erroneous one |
| `Positions.DecodeEncoded` | ast/ast.go:184-213 | decoding undoes the UTF-8 encoder of section 3 of RFC 3629, for every scalar value and whatever follows |
| `Positions.DecodeExact` | ast/ast.go:184-213 | a decoded rune is the one whose encoding stands there, and one byte is an error exactly where no encoding does |
| `Positions.ColumnMeaning` | ast/ast.go:184-213 | columns are code units of the text: bytes under UTF-8, the units of section 2.1 of RFC 2781 under UTF-16, runes under UTF-32 |
| `Positions.ComputeLineOffsets` | ast/ast.go:441-456 | the offsets are exactly 0 and each newline index plus one |
| `Positions.Tree.Position` | ast/ast.go:149-213 | the line of an offset, and the number of code units of the text before it there, in the chosen encoding |
| `Positions.Tree.Offset` | ast/ast.go:215-267 | the first rune boundary of the line whose column is not before the given one, or the line's end |
| `Positions.OffsetOfPosition` | ast/ast.go:149-267 | the offset found for the position of a decode boundary is that boundary, on any bytes |
| `Positions.PositionOfOffset` | ast/ast.go:149-267 | the position of the offset found for a real column is that column |
| `Positions.OffsetRoundTrip` | ast/ast.go:149-267 | through both methods, for every offset on a boundary |
| `Positions.PositionRoundTrip` | ast/ast.go:149-267 | through both methods, for every line and column on a boundary |
| `Lexing.Lexer.Advance` | lexer/lexer.go:61-73 | the cursor moves to the read position, with the byte there or NUL at the end |
| `Lexing.Lexer.SkipWhitespace` | lexer/lexer.go:233-258 | the cursor passes the longest run of space, tab, CR and LF |
| `Lexing.Lexer.ReadIdent` | lexer/lexer.go:260-336 | the longest name, with the kind of its reserved word if it is one |
| `KindTables.WordKindExact` | lexer/lexer.go:284-334 | a name is a keyword if and only if it is one of the 22 reserved words, and then that one |
| `KindTables.BytesExact` | lexer/lexer.go:26-40 | the bytes of names, decimal and hexadecimal numerals and white space, one by one |
| `Lexing.Lexer.ReadNumber` | lexer/lexer.go:338-370 | the longest numeral: digits, points, exponent marks, and signs right after such a mark |
| `Lexing.Lexer.ReadString` | lexer/lexer.go:372-403 | up to the first unescaped quote, before the first unescaped line break, or to the end |
| `Lexing.Lexer.ReadBacktickString` | lexer/lexer.go:405-428 | up to the next backtick or to the end |
| `Lexing.Lexer.ReadLongString` | lexer/lexer.go:430-468 | a level-n long bracket ends with the first closing bracket of level n, or at the end of input or a NUL byte; without a second bracket it is illegal |
| `Lexing.Lexer.ReadComment` | lexer/lexer.go:470-508 | a long comment ends like a long string, another before its line break |
| `Lexing.OperatorLongest` | lexer/lexer.go:98-211 | an operator token is the longest operator spelled there |
| `Lexing.Lexer.Next` | lexer/lexer.go:86-231 | the token starts at the first byte that is not white and is the lexeme there, or the end of input there |
| `Lexing.LexemeUnique` | lexer/lexer.go:86-231 | a position starts at most one lexeme |
| `Lexing.Tokenize` | lsp/format.go:139-152 | calling Next until EOF ends; tokens are non-empty, in order and in bounds with only white bytes (and a leading byte order mark) between them; without NUL bytes the whole source is read |
| `Lexing.TokenizationUnique` | lexer/lexer.go:86-231 | a source has only one tokenization |
| `Lexing.LineCommentExact` | lexer/lexer.go:470-508 | a comment that opens no long bracket runs to the end of its line if and only if it does not start with a bracket and equals signs that the line goes on after |
| `Lexing.BrokenBracketStops` | lexer/lexer.go:473-485 | a concrete comment that stops early |
| `Formatting.PopScope` | lsp/format.go:368-376 | a closer closes the innermost scope of its kind and all inside it, or nothing |
| `Formatting.IsComplexTable` | lsp/format.go:582-605 | whether a function or control statement starts directly in the table: at its own brace depth and before it closes |
| `Formatting.LineIndent` | lsp/format.go:485-580 | a line that closes scopes is aligned with the line that opened the outermost of them, another is indented inside the innermost, one more when it continues a statement; no answer exactly when something is closed with nothing open |
| `Formatting.IndentIsLevel` | lsp/format.go:485-580 | on a stack whose scopes carry the levels of the lines that opened them, the indentation is the level told from the tokens alone |
| `Formatting.LevelRule` | lsp/format.go:485-580 | that level: of the line that opened the outermost scope closed on the line; else one more than that of the line that opened the innermost open scope, and one more again when a statement goes on |
| `Formatting.NewGap` | lsp/format.go:181-340 | the new gap is white, with one or two line breaks where there were some, and one space or none within a line; before a line it is the breaks and a tab, or `indentSize` spaces, for each level |
| `Formatting.UpdateScopes` | lsp/format.go:368-415 | the open scopes depend on the tokens only, and a new one carries the indentation of its line |
| `Formatting.Format` | lsp/format.go:139-460 | it fails if and only if a line closes more than is open with nothing open; otherwise the edits are those that put the new gaps in place, and every line stands at its level in tabs or spaces |
| `Formatting.EditsWhite` | lsp/format.go:342-366 | on a clean source the edits are ordered and disjoint and replace white text by white text |
| `Formatting.PatchedIsWoven` | lsp/format.go:342-366 | carrying them out gives the same token texts in the same order with their gaps between them |
| `Formatting.FormatPreserves` | lsp/format.go:139-460 | both, for a document and for any range of it |
| `Formatting.LeftGapExact` | lsp/format.go:345-366 | afterwards the new gaps stand exactly where the range shares an offset with the old one, and everywhere without a range |
| `Formatting.EditsChange` | lsp/format.go:345-366 | no edit writes what stands there already |
| `Formatting.FormatExact` | lsp/format.go:342-459 | formatting a document changes white text only, if and only if there is no byte order mark, no NUL byte between tokens and no illegal token before the last |
| `Formatting.BreaksKept` | lsp/format.go:304-319 | a gap between tokens that held line breaks keeps one or two, another gets at most one |
| `Formatting.CommentKeepsLine` | lsp/format.go:304-319 | what follows a line comment stays on another line |
| `Formatting.StrayCloserFails` | lsp/format.go:532-538 | every source that starts with a closing token fails |
| `Formatting.StrayEndFails` | lsp/format.go:532-538 | a concrete source that fails |
| `Formatting.WellNestedFormats` | lsp/format.go:485-580 | a source whose closers each close the innermost scope does not fail |
| `BlockGrammar.ProgramsNest` | lsp/format.go:368-483 | every program in the block and bracket structure of section 9 of the Lua 5.4 Reference Manual, keywords that name fields counting as identifiers, is well nested for the formatter and leaves nothing open |
| `BlockGrammar.ProgramsFormat` | lsp/format.go:485-580 | so formatting it never fails |
| `KindTables.ForcedExact` | lsp/format.go:745-794 | a line break is put in where there was none, if and only if what follows starts a statement or ends a block, what precedes opens a block, is a semicolon outside tables or a value before a name or function, or an entry of a table with functions or control statements begins or ends |
| `KindTables.SpaceExact` | lsp/format.go:796-862 | two tokens stand side by side if and only if a bracket, dot, colon or separator joins them, they are a call and its argument, an operator that can only be unary and its operand, or none of them is a keyword, an operator or a separator and not both are values |
| `Formatting.LastTwo` | lsp/format.go:417-421 | what decides spaces and breaks are the last two tokens that are no comments |
| `KindTables.ContinuesExact` | lsp/format.go:555-571 | which tokens make a line go on with a statement |
| `KindTables.RangesExact` | token/token.go:6-86 | keywords, words and operators are ranges of the token codes |
| `Formatting.IllegalErases` | lsp/format.go:342-346 | after an illegal token, everything up to the next token is replaced by white text |
| `Formatting.IllegalByteLoses` | lsp/format.go:342-346 | formatting `a$b`, with any options, gives an edit that replaces the `a$` by white text |
| `Relexing.LexemeLocal` | lexer/lexer.go:86-231 | whether a text is a lexeme of a source is settled by the text and the one byte after it |
| `Relexing.WhiteEnds` | lexer/lexer.go:86-231 | white space put after a legal token leaves it that token, if a line break stays a line break |
| `Relexing.RelexExact` | lsp/format.go:139-460 | the formatted text of a clean source with legal tokens has the same tokens, if and only if none that the formatter leaves without a gap, as told from the source, fuses with the byte after it, the last one standing before a line break |
| `Relexing.OperatorFuses` | lsp/format.go:796-862 | the bytes each operator fuses with |
| `Relexing.WordFuses` | lsp/format.go:796-862 | a name or keyword fuses exactly with the bytes of names |
| `FusingKinds.PairExact` | lsp/format.go:796-862 | of two tokens that needsSpace leaves side by side, the first fuses with the second exactly for the listed kinds |
| `FusingKinds.LastExact` | lsp/format.go:427-459 | a last token takes in the line break put after it exactly if it is a string whose next byte is escaped, or a string or long comment that nothing closed |
| `FusingKinds.RelexKinds` | lsp/format.go:139-460 | the formatted text has the same tokens, if and only if no two tokens left side by side are of those kinds and the last one is not left open |
| `Relexing.MinusesFuse` | lsp/format.go:852-856 | formatting `- -x`, with any options, gives a text that is not read as those tokens |
| `Relexing.SecondPass` | lsp/format.go:181-340 | formatting the result again keeps every line break and every space within a line |
| `Relexing.SameIndent` | lsp/format.go:485-580 | a line that is cut into the same tokens as before, with the same scopes open, is indented as before |
| `Framing.Reader.ReadMessage` | lsp/rpc.go:34-87 | the outcome and what is left of the stream are those of the header grammar, errors included; `EveryStream` lists what that comes to |
| `Framing.WriteFrame` | lsp/rpc.go:105-127 | a reader gets the body back from the written frame and leaves what follows untouched, for every body of 1 byte to 100 MiB |
| `Framing.DecimalValue` | lsp/rpc.go:111-111 | the decimal length reads back as the number |
| `Framing.ValueIsPlaceValue` | lsp/rpc.go:65-65 | reading digits one by one gives their place value |
| `Framing.FieldExact` | lsp/rpc.go:49-71 | a header line says a length if and only if what stands before its first colon is content-length, letter by letter in either case, between blanks, and what follows is a numeral of at most 64 bits between blanks; it is invalid with that name and any other text |
| `Framing.HeaderRead` | lsp/rpc.go:38-71 | header lines of every kind are read through, the last length counting |
| `Framing.LenientRead` | lsp/rpc.go:34-87 | names in any case, other headers, bare newlines: the last length said decides whether the message is read, is too large, is cut short or was never given |
| `Framing.NoNumberRead` | lsp/rpc.go:56-68 | a stream whose next header line names the length without a valid number is refused there |
| `Framing.CutShort` | lsp/rpc.go:38-46 | a stream that gives no further line is refused there |
| `Framing.EveryStream` | lsp/rpc.go:34-87 | every stream is of one of these three kinds |
| `Framing.FrameRoundTrip` | lsp/rpc.go:34-127 | a written frame is read back with what follows untouched, if and only if its body has between 1 byte and 100 MiB |
| `Framing.StreamRoundTrip` | lsp/rpc.go:34-127 | a written stream is read back body by body and used up exactly |

## Left out

- Text of the refactorings: indentation, comments and blank space of the printed code, and lexing it; conditions are token lists and statements are words.
- Lua beyond the statement language of `LuaExecution.dfy`: loops and calls are opaque statements, `goto` and `break` out of a rewritten block do not occur, and closing handlers terminate.
- The parser's depth limit of 200 and its error recovery.
- `lsp/eval.go`: its verdict on a condition is a parameter, the report of constant comparisons apart.
- OppositeConditions.SameStripped: compares conditions by their tokens, a call chain being one. The original also tells blank space inside them apart, and strips the outer brackets of a chain such as `(f)(x)`; against `not ((f)(x))` it then reports no opposite where the model does.
- ConditionInversion.InversionCorrectIffOrdered: operands carry distinct numbers, as syntax tree nodes do; the direction from ordered to correct (`InverseNegates`) needs no such thing.
- Wrap-around of 32- and 64-bit counters and offsets, and memory limits.
- Mutexes: every method of the index, the graph and the prefetch queue runs alone; only the warm-up pool is interleaved.
- Scopes and entries shared by pointer with callers of the index, who could change them behind its back.
- `estimateSourceBytes` (a byte count is given), `normalizeFiveMResourceAlias` and the reading of manifests (names, aliases and dependencies are given), and script scopes.
- ResourceGraph.FiveMResourceGraph.RemoveNode: is asked for live nodes only, as its callers do; the deletion of a name by the file watcher afterwards is not part of this model.
- `Validate` and the path helpers of the asset inventory: loops that append one issue per bad path.
- The per-function lists of identifiers and yields in `fivem_ast_facts.go`; which nodes carry which loop facts is given.
- `NodeAt`, `TrimOversized` and `Reset` of the syntax arena.
- `Reset` of a lexer in use: a new source gets a new lexer.
- The opinionated formatter, and turning edit offsets into positions (`Positions.dfy` has that conversion).
- Relexing.SecondPass: does not say that the indentation settles, and it need not: a line may be cut differently once line breaks are put in. The first pass over `a = { b = { function() end } }` aligns the `end` with the first line, where the scan for closing tokens still sees both braces, a second pass with the `function`. `SameIndent` has the condition for one line.
- Framing.Reader.ReadMessage: trims the ASCII spaces of a header, not the other Unicode ones; the errors of a broken connection are left out.
- Request handlers, completion, hover, diagnostics, JSON, telemetry and file watching.
