# Migo core: a verified model

This project models seven pieces of the Migo runtime and its build tooling and proves what each of
them is for. Each module follows one source file; where the source works by updating state in place
or by a loop, the model is a class, an array or a loop proved against a specification function, and
the theorems are about that specification.

1. **The audio graph** (`engine/crates/audio/src/context.rs`). `AudioGraph`, `Digraph`, `Csr`,
   `Scheduler`, `Renderer`, `Feedback`, `Signal`, `Collector` and `AudioContexts`. The node map, the connection list and
   the cached compressed adjacency are fields of the class `AudioContext`. Node processors and sample
   arithmetic are uninterpreted total operations (`Dsp`), and the enumeration order of a hash map is
   an arbitrary choice. Five theorems carry the module: the adjacency is a stable counting sort, the
   processing order is a permutation whose drained prefix is exactly the part of the graph that no
   cycle and no destination feeds, one quantum computes the recursive dataflow meaning of every such
   node, every other node satisfies a dataflow equation that says which of its inputs are a quantum
   late, and the collector keeps one set whatever order it finds its victims in. `Signal` states the
   rendering once more in terms of connections, port numbers and the processor's own step alone.
2. **The decoded-audio cache** (`engine/crates/audio/src/cache.rs`). `AudioCaches`: two indexes
   refine one list ordered by recency.
3. **Manifest identity** (`tools/artifact-manifest/src/lib.rs`). `ManifestFields`, `JsonNotation` (a
   reader of JSON), `Numerals` and `CanonicalJson` (a text that this reader undoes, and sealing),
   `SemVer` and `VersionExpression` (parser, grammar and regular expression agree), `PackageTree` (a
   directory walk that accepts exactly the packages that match their manifest).
4. **Build-target selection** (`scripts/lib/verification_targets.py`). `ModuleWalk` (a worklist that
   computes a union over all declaration paths) and `TargetSelection` (a closure that fails closed,
   and monotonicity of both selections).
5. **JNI source reading** (`scripts/lib/jni_source.py`). `SourceMask`, `JavaMasker` and `RustMasker`
   (each masker against a character-by-character lexer), `JavaElements` and `RustForms` (the texts
   those lexers know, written out), `JavaTextBlocks` and `RustRemask` (what the maskers do not do),
   `SourceStructure`, `JniDescriptor`, with `Text` for splitting.
6. **Mach-O reading** (`scripts/lib/macho_build_version.py`). `MachO` (reader), `MachOWriter` (a
   writer it undoes), `MachONames` (the writer's own tables of processors, platforms and versions),
   `Bytes`.
7. **PNG unfiltering** (`scripts/lib/dominant_pixel.py`). `PngFilter`.

Check the whole project with `dafny verify dfyconfig.toml`.

## Where the code and its comments differ

Each of these is stated for all inputs, with the exact condition under which the code does what one
would expect, and with a witness where a comment is contradicted.

- The comment at `engine/crates/audio/src/context.rs:949` says that a node with in-degree left over
  sits on a cycle. `Scheduler.LeftoverOffCycle` is a graph of which every schedule leaves over a node
  on no cycle; `Scheduler.ScheduleOverIds` says which nodes are left over, and
  `Scheduler.LeftoversOnCycles` when the comment is right: no live connection leads from a cycle or
  from the destination to a node, other than the destination, that is on no cycle.
- The comment at `engine/crates/audio/src/context.rs:951-957` gives a cycle exactly one quantum of
  delay. A connection is a quantum late exactly when its source does not stand earlier in the
  schedule (`Feedback.BufferAtTurn`). `Feedback.DelayedTwice` is a cycle of three that loses two in
  whatever order a rebuild returns when the node map enumerates it backwards, and
  `Feedback.DelayedOnceForward` the same cycle losing one when enumerated forwards. A rebuild delays a
  cycle once exactly when the enumeration follows the cycle (`Feedback.DelayedOnceByRank`), and under
  every enumeration exactly for cycles of one or two nodes (`Feedback.AlwaysDelayedOnce`).
- The comment at `engine/crates/audio/src/context.rs:240` has `prune` drop every node that can no
  longer affect the output. A released feedback loop and a released source wired nowhere both stay
  (`Collector.UnheardSurvivors`). `Collector.ReleasedSurvivors` says exactly what stays of a graph
  whose nodes are all released and silent, and `Collector.SurvivorsAreHeard` exactly when everything
  that stays has a way to the destination.
- `close` does not end a context: `suspend` followed by `resume` makes a closed one run again.
  `AudioContexts.ClosedRunsAgain` says exactly which runs do that, and `AudioContexts.Run` shows that
  they are safe.
- Inserting into the cache makes room while the entry about to be replaced still counts, so a
  replacement of equal size can evict an unrelated entry (`AudioCaches.ReplacementEvicts`). No
  unrelated entry goes exactly when everything fits beside the new item, or when the least recent
  entry is the one replaced and dropping it alone makes room (`AudioCaches.InsertSparesOthers`).
- A universal file shorter than eight bytes makes the reader fail with the unpacking library's own
  error and not with its own; `MachO.ReadsPastTheEnd` shows that this is the only such file.
- The description at `scripts/lib/macho_build_version.py:24-27` says that every member of an archive
  is visited or the read fails. An archive cut off inside the 60-byte header of its last member reads
  as if that member were not there; one cut off inside the member's body is refused
  (`MachOWriter.TruncatedArchive`, for every cut).
- The comment at `tools/artifact-manifest/src/lib.rs:995-996` says that joining a declared path cannot
  leave the package. The operating system follows an expected symlink in the middle of such a path
  (`PackageTree.ArtifactBehindLink`); the check means what it should exactly when no artifact is
  declared behind an expected link (`PackageTree.FaithfulExactly`).
- `mask_rust` at `scripts/lib/jni_source.py:89-90` promises literal bodies blanked. In an unclosed raw
  string the last characters, as many as the closer would take, stay: `r",` keeps its comma
  (`RustMasker.LeakingComma`) and is split there (`SourceStructure.LeakingCut`). Every body is blanked
  exactly when these characters are blank anyway (`RustMasker.MaskIsStrict`), in particular in every
  text that does not end inside a raw string (`RustMasker.ClosedIsStrict`).
- `mask_rust`, unlike `mask_java`, can change its own output: the closing quote of an escaped character
  literal may open a literal in the mask (`RustRemask.MaskedTwice`).
  `RustRemask.RustMaskIdempotent` says exactly which texts are stable.
- `mask_java` at `scripts/lib/jni_source.py:57-58` promises the same of Java and does not know text
  blocks: a quote inside one ends the literal it sees (`JavaTextBlocks.CommaInBlock`). Text blocks are
  blanked all the same exactly when they hold no such quote (`JavaTextBlocks.MaskIsBlockMask`).
- `balanced_end` at `scripts/lib/jni_source.py:143-144` takes any closing bracket for the one that
  closes an opening one (`SourceStructure.MismatchedEnd`); it finds the right kind exactly when no
  closer up to there meets an opener of another kind (`SourceStructure.BalancedMatches`).
- The comment at `scripts/lib/jni_source.py:214-215` keeps `V` for return types, but
  `decode_descriptor` accepts it as a parameter too (`JniDescriptor.VoidParameterDecodes`) and under
  array markers. `JniDescriptor.VoidExact` says which accepted descriptors keep void in its place:
  those without a `V` outside class names among the parameters or behind a marker in the result.

## Model

| member | source | states |
|---|---|---|
| Csr.AssignDenseIndices | engine/crates/audio/src/context.rs:839-846 | dense indices are a bijection with the node ids, in whatever order the map enumerates them |
| Csr.CountEdges | engine/crates/audio/src/context.rs:848-883 | one shifted count per endpoint and, in connection order, the source and effective ports of every live connection; dangling connections leave no trace |
| Csr.PrefixSums | engine/crates/audio/src/context.rs:884-887 | every entry becomes the number of edges with a smaller endpoint |
| Csr.PlaceEdge | engine/crates/audio/src/context.rs:910-919 | one edge lands inside its own slice, behind the earlier ones, and disturbs no other slice |
| Csr.FillEdges | engine/crates/audio/src/context.rs:889-920 | the fill is a stable counting sort: each node's slice holds exactly the ids of its live in-edges in increasing order, the out-slices hold the matching destinations, the slices partition the arrays, and the borrowed cursor ends as the true in-degree |
| Csr.PositionsExact | engine/crates/audio/src/context.rs:902-920 | a slice holds an edge id if and only if that edge ends at the node, in strictly increasing order |
| Csr.OffsetTotal | engine/crates/audio/src/context.rs:883-887 | all slices together are exactly as long as the edge list |
| Csr.BuildAdjacency | engine/crates/audio/src/context.rs:837-920 | for every graph, parallel edges, self-loops and dangling ids included, the cached vectors describe exactly that graph |
| Csr.DescribesShape | engine/crates/audio/src/context.rs:869-881 | node states never enter the cached adjacency, so rendering and parameter changes cannot make it stale |
| Scheduler.InitialReady | engine/crates/audio/src/context.rs:924-933 | exactly the nodes without live inputs other than the destination, already sorted |
| Scheduler.ReleaseOne | engine/crates/audio/src/context.rs:940-945 | consuming an edge keeps degree, queue and order in step; the saturating subtraction never saturates and no node is queued twice |
| Scheduler.ReleaseOutputs | engine/crates/audio/src/context.rs:937-946 | all edges out of the node just ordered are consumed once each, parallel ones included |
| Scheduler.DrainOne | engine/crates/audio/src/context.rs:935-947 | one turn of Kahn's loop keeps the draining invariant and orders one more node behind all of its sources |
| Scheduler.Drain | engine/crates/audio/src/context.rs:924-947 | Kahn's loop terminates with an empty queue, every consumed edge leaving an ordered node and every ordered node behind its sources |
| Scheduler.OrderedIsUntainted | engine/crates/audio/src/context.rs:935-947 | nothing that a cycle or the destination feeds can be drained |
| Scheduler.UnorderedIsTainted | engine/crates/audio/src/context.rs:949-965 | whatever the drain leaves behind is fed by a cycle or by the destination |
| Scheduler.Leftover | engine/crates/audio/src/context.rs:959-964 | exactly the undrained nodes other than the destination, in index order |
| Scheduler.AllPlaced | engine/crates/audio/src/context.rs:958-959 | when the count says everything is placed, the skipped scan would have found nothing |
| Scheduler.ProcessingOrder | engine/crates/audio/src/context.rs:922-970 | the order is a permutation of all indices, the destination is last, sources precede in the drained prefix, the nodes left over follow in index order, and a node other than the destination is in that prefix if and only if no cycle and no destination reaches it |
| Scheduler.TaintAgrees | engine/crates/audio/src/context.rs:839-846 | reachability from cycles and from the destination is the same over dense indices and over node ids |
| Scheduler.ScheduleOverIds | engine/crates/audio/src/context.rs:836-971 | the schedule as a caller sees it: every node once, the destination last, the drained part exactly the nodes not fed by a cycle or the destination, each behind all of its live sources |
| Scheduler.LeftoverOffCycle | engine/crates/audio/src/context.rs:949-957 | a concrete graph of which every schedule leaves over a node that lies on no cycle |
| Scheduler.LeftoversOnCycles | engine/crates/audio/src/context.rs:949-957 | in every schedule of every graph, the nodes left over, other than the destination, all sit on cycles if and only if no live connection leads from a cycle or the destination to a node off cycles |
| Renderer.MixBus | engine/crates/audio/src/context.rs:1030-1034 | the whole-bus loop adds exactly each position's contribution |
| Renderer.MixSplitter | engine/crates/audio/src/context.rs:1037-1045 | the splitter loop spreads one source channel over every whole frame and leaves a partial frame alone |
| Renderer.MixMerger | engine/crates/audio/src/context.rs:1048-1061 | the merger loop changes exactly one channel per whole frame, by the routed channel or by the mean |
| Renderer.MixEdge | engine/crates/audio/src/context.rs:1027-1062 | the three loops together add the contribution of a port-routed source at every position, for every pair of ports |
| Renderer.SliceIsConnectionOrder | engine/crates/audio/src/context.rs:1014-1064 | folding a node's edge slice is the left fold over the connection list, so the mix is independent of the dense numbering and needs no law of addition |
| Renderer.MixInputs | engine/crates/audio/src/context.rs:1016-1064 | the input loop computes that fold, and reports no input exactly when no live connection ends at the node |
| Renderer.RenderNode | engine/crates/audio/src/context.rs:1010-1090 | one turn of the render loop is one firing of the node on the mix of its sources' current buffers; every other node and buffer is untouched |
| Renderer.RenderOrder | engine/crates/audio/src/context.rs:1007-1091 | the loop is the sequential run of the scheduled nodes and never indexes outside the cached vectors |
| Renderer.SourceIsGrounded | engine/crates/audio/src/context.rs:949-957 | upstream of a node that no cycle feeds, the ancestors strictly shrink, so its dataflow meaning is well founded |
| Renderer.CleanSourceFirst | engine/crates/audio/src/context.rs:922-970 | in any schedule the sources of a node that neither a cycle nor the destination feeds run before it |
| Renderer.RenderMeans | engine/crates/audio/src/context.rs:1007-1091 | after any prefix of any schedule, every node in it that no cycle and no destination feeds holds its recursive dataflow meaning in its buffer and its state |
| Renderer.AcyclicIsClean | engine/crates/audio/src/context.rs:975-979 | without cycles and without edges out of the destination, that applies to every node |
| Renderer.RenderKeepsShape | engine/crates/audio/src/context.rs:1076-1090 | rendering changes no node's ports and no connection, so the cache stays valid |
| Signal.SentIsContribution | engine/crates/audio/src/context.rs:1026-1062 | a connection adds, at each position, what its output port and its target's input port let through: the channel numbered by the output port, the mean of the frame, or the sample as it is |
| Signal.MixIsSum | engine/crates/audio/src/context.rs:1014-1064 | the mix is, at each position, the sum of what the connections into the node send, in connection order, and there is none exactly when no connection ends there |
| Signal.TurnSteps | engine/crates/audio/src/context.rs:1066-1090 | a turn calls the node's processor once, in its old state, on those sums or on an empty slice, keeps its state and the samples it wrote, and changes nothing else |
| Signal.MeaningSteps | engine/crates/audio/src/context.rs:1007-1091 | the dataflow meaning of a node is its processor called on what the meanings of its sources send it |
| Signal.RunSteps | engine/crates/audio/src/context.rs:1007-1091 | over a whole schedule every node is called once, in its old state, on the sums of the buffers it saw |
| Feedback.BufferAtTurn | engine/crates/audio/src/context.rs:955-957 | when a node's turn comes, a source's buffer holds this quantum's samples if the source stands earlier in the schedule, and last quantum's if not |
| Feedback.DelayedDataflow | engine/crates/audio/src/context.rs:1007-1091 | every node of every schedule, on cycles or not, fires once from its old state on the mix of the buffers it sees, each current or one quantum late by its place in the schedule |
| Feedback.CycleIsDelayed | engine/crates/audio/src/context.rs:951-957 | no schedule renders a whole cycle within one quantum: at least one of its connections is late |
| Feedback.DelayedOnce | engine/crates/audio/src/context.rs:951-957 | a schedule makes exactly one connection of a cycle late if and only if it runs the cycle's nodes in cycle order from some point |
| Feedback.DelayedByRank | engine/crates/audio/src/context.rs:955-970 | which connections of a cycle are late is settled by the enumeration alone: a source is late exactly when it is not enumerated before its target, the destination counted last |
| Feedback.DelayedOnceByRank | engine/crates/audio/src/context.rs:951-965 | a rebuild makes exactly one connection of a cycle late if and only if the enumeration follows the cycle from some point on |
| Feedback.OrderExists | engine/crates/audio/src/context.rs:836-971 | every enumeration has an order that a rebuild may return |
| Feedback.ShortCycle | engine/crates/audio/src/context.rs:951-957 | a self-loop and a cycle of two lose exactly one quantum under every schedule |
| Feedback.LongCycle | engine/crates/audio/src/context.rs:951-965 | when the node map enumerates two neighbours of a cycle of three or more first and backwards, every order a rebuild may return makes two of its connections late |
| Feedback.AlwaysDelayedOnce | engine/crates/audio/src/context.rs:951-965 | the one-quantum delay holds in every order built from every enumeration of the node map if and only if the cycle has at most two nodes |
| Feedback.DelayedTwice | engine/crates/audio/src/context.rs:951-965 | a concrete graph with its destination and an enumeration from which every built order delays a cycle of three twice |
| Feedback.DelayedOnceForward | engine/crates/audio/src/context.rs:951-965 | the same graph enumerated forwards: every built order delays the cycle once |
| Feedback.TriangleBuilds | engine/crates/audio/src/context.rs:836-971 | such a built order exists |
| Collector.VictimIsNoSurvivor | engine/crates/audio/src/context.rs:253-268 | no pass takes a survivor, however many other nodes are already gone |
| Collector.QuiescentIsSurvivors | engine/crates/audio/src/context.rs:253-268 | passes can stop only when exactly the survivors are left |
| Collector.SurvivorsAreKernel | engine/crates/audio/src/context.rs:240-280 | whichever victim each pass picks, the nodes kept are those reachable through unfinished nodes from the destination, an unreleased node, a producing node or a directed cycle |
| Collector.FinishedNeverSurvives | engine/crates/audio/src/context.rs:256-262 | a finished node goes and the destination stays |
| Collector.SurvivorIsFed | engine/crates/audio/src/context.rs:260-262 | a released, silent survivor still has a surviving source |
| Collector.ReleasedSurvivors | engine/crates/audio/src/context.rs:259-262 | of a graph all released and silent, exactly what the destination or a cycle of unfinished nodes feeds stays |
| Collector.SurvivorsAreHeard | engine/crates/audio/src/context.rs:240-280 | every survivor has a way to the destination if and only if everything reachable from a node that keeps itself has |
| Collector.UnheardSurvivors | engine/crates/audio/src/context.rs:240-280 | a released loop and a released source wired nowhere survive without a way to the destination |
| Collector.CollectAgain | engine/crates/audio/src/context.rs:220-238 | collecting again finds nothing, so a repeated release changes nothing more |
| AudioContexts.SurvivorsByState | engine/crates/audio/src/context.rs:251-268 | over the node states: a finished node goes, a producing or unreleased unfinished one stays, and a released silent one stays only behind a surviving source |
| AudioGraph.WithoutTwice | engine/crates/audio/src/context.rs:272-272 | cutting connections node by node equals cutting them for all removed nodes at once |
| AudioGraph.WithoutSnoc | engine/crates/audio/src/context.rs:272-272 | a connection is kept exactly when neither of its ends is removed, and the order stays |
| AudioGraph.DisconnectedSnoc | engine/crates/audio/src/context.rs:811-823 | a connection is cut exactly when it leaves the source and, if a target is named, ends there |
| AudioContexts.BuildOrder | engine/crates/audio/src/context.rs:836-971 | a rebuild yields an adjacency that describes the graph and an order that schedules it, the nodes left over in index order |
| AudioContexts.FullRender | engine/crates/audio/src/context.rs:1007-1091 | running any schedule gives every node that no cycle and no destination feeds its dataflow meaning |
| AudioContexts.AcyclicRendering | engine/crates/audio/src/context.rs:975-1117 | on a graph without cycles and without edges out of the destination, one quantum gives every node its dataflow meaning, whatever schedule was built, and the drain places everything |
| AudioContexts.AddInto | engine/crates/audio/src/context.rs:1093-1099 | the destination's buffer is added to the output, never copied over it, up to the shorter length |
| AudioContexts.AudioContext.constructor | engine/crates/audio/src/context.rs:113-160 | a new context is running, holds the destination alone and satisfies the invariant |
| AudioContexts.AudioContext.Suspend | engine/crates/audio/src/context.rs:186-188 | suspends from every state, a closed one included, and keeps the invariant |
| AudioContexts.AudioContext.Resume | engine/crates/audio/src/context.rs:190-194 | resumes a suspended context only and keeps the invariant |
| AudioContexts.AudioContext.Close | engine/crates/audio/src/context.rs:196-207 | empties the graph without marking it dirty, and still leaves a state in which processing is safe |
| AudioContexts.AudioContext.AddNode | engine/crates/audio/src/context.rs:505-524 | the node gets a buffer of 128 silent frames, reusing a pooled one, so nodes and buffers keep the same keys |
| AudioContexts.AudioContext.UpdateNode | engine/crates/audio/src/context.rs:537-547 | a setter changes the state of an existing node of its own type and nothing else, refuses any other, and leaves a clean cache clean |
| AudioContexts.AudioContext.ConnectPorts | engine/crates/audio/src/context.rs:790-809 | a quadruple is recorded at most once, and only a change marks the graph dirty |
| AudioContexts.AudioContext.Disconnect | engine/crates/audio/src/context.rs:811-823 | exactly the matching connections go, the others keep their order, and the graph is marked dirty if and only if something went |
| AudioContexts.AudioContext.FindVictim | engine/crates/audio/src/context.rs:254-267 | finds a node that has finished, or that is released, silent and without a live input, whenever there is one |
| AudioContexts.AudioContext.Collect | engine/crates/audio/src/context.rs:269-273 | one node leaves every collection it is in, and its buffer goes to the pool exactly when there is room |
| AudioContexts.AudioContext.Prune | engine/crates/audio/src/context.rs:251-280 | terminates, keeps exactly the survivors, which is stated over the node states as well, reports each removed id once, cuts exactly the connections of removed nodes and marks the graph dirty if and only if something went |
| AudioContexts.AudioContext.ReleaseNode | engine/crates/audio/src/context.rs:231-238 | a release collects what it frees and nothing else; the destination and unknown ids are ignored |
| AudioContexts.AudioContext.RemoveFinishedNode | engine/crates/audio/src/context.rs:635-642 | collects at once if the node has finished, and otherwise changes nothing |
| AudioContexts.AudioContext.RebuildProcessingOrder | engine/crates/audio/src/context.rs:836-971 | the cache describes the current graph afterwards |
| AudioContexts.AudioContext.RenderQuantum | engine/crates/audio/src/context.rs:993-1110 | rebuild if dirty, run the schedule once, add the destination's buffer to the output, advance the clock by whole frames |
| AudioContexts.AudioContext.PoolIsBounded | engine/crates/audio/src/context.rs:527-533 | the pool holds at most sixteen buffers |
| AudioContexts.AudioContext.Process | engine/crates/audio/src/context.rs:986-1117 | a running context calls every node of its schedule once on what its sources' buffers send it, renders its graph to the dataflow meaning, adds the destination's buffer to the output and keeps the survivors of the rendered graph, finished nodes gone and producing ones kept; any other context touches nothing |
| AudioContexts.Run | engine/crates/audio/src/context.rs:186-1117 | over every run of public operations the invariant holds: buffers and nodes share their keys, released ids exist, no connection repeats, the pool is bounded, and a clean cache describes the current graph; the life-cycle state is the one the run's suspends, resumes and closes lead to |
| AudioContexts.ClosedRunsAgain | engine/crates/audio/src/context.rs:186-207 | a closed context runs again at some point of a run if and only if a suspend is followed by a resume with no close between them |
| AudioCaches.MakeRoomIsShortest | engine/crates/audio/src/cache.rs:92-95 | eviction removes the shortest least-recent prefix that makes room |
| AudioCaches.InsertedFits | engine/crates/audio/src/cache.rs:74-125 | after a fitting insert the new item is the most recent, no URL repeats, the limit holds and the other kept items keep their recency order |
| AudioCaches.ReplacementEvicts | engine/crates/audio/src/cache.rs:92-104 | a concrete replacement of equal size that evicts an unrelated entry |
| AudioCaches.InsertSparesOthers | engine/crates/audio/src/cache.rs:92-115 | a fitting insert keeps every entry for another URL if and only if everything fits beside the new item, or the least recent entry is the one replaced and dropping it alone makes room |
| AudioCaches.UrlsAreDistinct | engine/crates/audio/src/cache.rs:106-114 | inverse indexes never hold a URL twice |
| AudioCaches.FoundAt | engine/crates/audio/src/cache.rs:58-63 | the URL index finds exactly the items of the recency list, with their stamps |
| AudioCaches.TouchedIsRecent | engine/crates/audio/src/cache.rs:57-71 | a hit moves the item from its place behind all others, which keep theirs; a miss changes nothing |
| AudioCaches.RemovedIsOthers | engine/crates/audio/src/cache.rs:140-146 | removing takes out the one item with the URL and nothing else |
| AudioCaches.OversizedIgnored | engine/crates/audio/src/cache.rs:82-90 | an item larger than the limit changes nothing |
| AudioCaches.AudioCache.constructor | engine/crates/audio/src/cache.rs:46-54 | a new cache represents the empty list |
| AudioCaches.AudioCache.Get | engine/crates/audio/src/cache.rs:57-71 | a hit moves the item to the recent end and returns its audio; a miss changes nothing |
| AudioCaches.AudioCache.EvictLru | engine/crates/audio/src/cache.rs:128-137 | the least recent item goes from both indexes and its size is subtracted exactly |
| AudioCaches.AudioCache.Insert | engine/crates/audio/src/cache.rs:74-125 | refines the list operation: an oversized item leaves everything alone, any other evicts while the old entry counts, then replaces it; the loop terminates and the size stays the exact sum within the limit |
| AudioCaches.AudioCache.Remove | engine/crates/audio/src/cache.rs:140-146 | the item goes from both indexes and from the list, the others stay in order |
| AudioCaches.AudioCache.Clear | engine/crates/audio/src/cache.rs:149-155 | the cache represents the empty list again |
| CanonicalJson.SortedUnique | tools/artifact-manifest/src/lib.rs:2226-2227 | the sorted order of a set of names is unique, so insertion order cannot show |
| CanonicalJson.CollectSorted | tools/artifact-manifest/src/lib.rs:2226-2227 | names come out in byte order whatever order the map yields them in |
| CanonicalJson.LessAt | tools/artifact-manifest/src/lib.rs:2227-2227 | one name precedes another exactly when it is a proper prefix or is smaller at the first difference |
| CanonicalJson.EscapeForms | tools/artifact-manifest/src/lib.rs:2210-2213 | which characters are written as themselves, behind a backslash, or as four lower-case hexadecimal digits |
| CanonicalJson.EscapeReads | tools/artifact-manifest/src/lib.rs:2210-2213 | a reader of JSON strings undoes every escape |
| CanonicalJson.QuotedReads | tools/artifact-manifest/src/lib.rs:2210-2213 | the reader finds the content of a quoted string and where it ends |
| Numerals.NumeralReads | tools/artifact-manifest/src/lib.rs:2208-2208 | the digits of a number, valued by their places, give the number |
| CanonicalJson.NumberReads | tools/artifact-manifest/src/lib.rs:2202-2209 | the reader finds the number that was written where a separator or the end follows |
| CanonicalJson.ValueReads | tools/artifact-manifest/src/lib.rs:2198-2242 | a reader of JSON that does not know the printer returns the value whose canonical text it is given, and stops behind it |
| CanonicalJson.Reads | tools/artifact-manifest/src/lib.rs:2198-2242 | unique readability: a canonical text followed by anything that may follow it comes from one value only |
| CanonicalJson.PrintInjective | tools/artifact-manifest/src/lib.rs:2198-2242 | two float-free values with the same text are equal, objects compared as unordered maps |
| CanonicalJson.WriteCanonicalJson | tools/artifact-manifest/src/lib.rs:2198-2242 | appends the canonical text, or fails if and only if a float occurs anywhere |
| CanonicalJson.WriteArray | tools/artifact-manifest/src/lib.rs:2214-2223 | the array loop appends the array's canonical text or fails on a float |
| CanonicalJson.WriteObject | tools/artifact-manifest/src/lib.rs:2224-2239 | the member loop appends the object's canonical text, in name order, or fails on a float |
| CanonicalJson.PreimageIdentifies | tools/artifact-manifest/src/lib.rs:2244-2259 | two manifests share an identity preimage if and only if they agree on every field but the id |
| CanonicalJson.CanonicalJsonWithoutField | tools/artifact-manifest/src/lib.rs:2244-2259 | computes that preimage |
| CanonicalJson.Manifest.Seal | tools/artifact-manifest/src/lib.rs:323-334 | a sealed manifest passes its id check, differs in no other field, and sealing it again changes nothing |
| CanonicalJson.Manifest.CheckId | tools/artifact-manifest/src/lib.rs:368-375 | accepts exactly the manifests whose id is the hash of the rest; the check that the id is a digest rejects none of them |
| ManifestFields.DigestIsNoPlaceholder | tools/artifact-manifest/src/lib.rs:2169-2181 | the generic placeholder rejection never hits a digest |
| ManifestFields.DigestText | tools/artifact-manifest/src/lib.rs:2171-2179 | a digest is 64 digits and letters from a to f |
| ManifestFields.PlaceholderForms | tools/artifact-manifest/src/lib.rs:2144-2158 | blank text, two words in any case between white space, and everything with an angle bracket are placeholders |
| ManifestFields.WhiteSpace | tools/artifact-manifest/src/lib.rs:2145-2145 | the white space that is trimmed, by code points |
| Text.JoinSplit | tools/artifact-manifest/src/lib.rs:916-916 | splitting loses nothing and leaves no separator in a piece |
| Text.SplitJoin | tools/artifact-manifest/src/lib.rs:916-916 | separator-free pieces are found again |
| SemVer.CheckIdentifiers | tools/artifact-manifest/src/lib.rs:911-937 | accepts exactly the dot-separated lists of well-formed identifiers |
| SemVer.CheckCore | tools/artifact-manifest/src/lib.rs:873-891 | accepts exactly three numbers without leading zeroes |
| SemVer.ValidatePackageVersion | tools/artifact-manifest/src/lib.rs:848-893 | accepts a text if and only if it is at most 128 bytes long and in the SemVer 2.0.0 grammar |
| SemVer.TakeSound | tools/artifact-manifest/src/lib.rs:856-891 | an accepted text is the print of the version it was taken apart into |
| SemVer.TakePrinted | tools/artifact-manifest/src/lib.rs:856-891 | every version of the grammar is accepted and taken apart into itself |
| SemVer.TakeIsGrammar | tools/artifact-manifest/src/lib.rs:856-909 | the parser's language is the grammar's |
| SemVer.VersionIsOrdinary | tools/artifact-manifest/src/lib.rs:849-850 | the placeholder and ASCII checks reject no version |
| SemVer.AsciiBytes | tools/artifact-manifest/src/lib.rs:850-850 | the ASCII check passes exactly the texts of characters up to 127 |
| VersionExpression.NumberMatches | scripts/gen-linux-package-metadata.py:23-25 | the expression's number matches exactly the decimal numbers without a leading zero |
| VersionExpression.PreReleaseMatches | scripts/gen-linux-package-metadata.py:26-26 | the expression's pre-release alternatives match exactly the grammar's identifiers |
| VersionExpression.Matched | scripts/gen-linux-package-metadata.py:22-29 | every text the expression matches is the print of a version of the grammar |
| VersionExpression.Printed | scripts/gen-linux-package-metadata.py:22-29 | the expression matches the print of every version of the grammar |
| VersionExpression.ExpressionIsGrammar | scripts/gen-linux-package-metadata.py:67-75 | the regular expression, with its own matching semantics, and the manifest check accept the same texts |
| PackageTree.ScanDirectory | tools/artifact-manifest/src/lib.rs:1032-1074 | in any entry order, one directory passes exactly when all of its entries are allowed, and then yields its subdirectories and symlinks |
| PackageTree.WalkStep | tools/artifact-manifest/src/lib.rs:1025-1075 | reading the directory on top of the stack keeps the walk's invariant |
| PackageTree.EntryRead | tools/artifact-manifest/src/lib.rs:1025-1075 | once the stack is empty every entry of the tree has been looked at |
| PackageTree.WalkTree | tools/artifact-manifest/src/lib.rs:1023-1075 | the worklist terminates, reads every directory once, and passes exactly when every entry below the root is allowed |
| PackageTree.CheckArtifacts | tools/artifact-manifest/src/lib.rs:994-1021 | passes exactly when the operating system finds every declared artifact as a regular file with its declared size and hash |
| PackageTree.TrailingSlash | tools/artifact-manifest/src/lib.rs:1062-1062 | link targets are compared by components, so a trailing slash makes no difference |
| PackageTree.ComponentsFrom | tools/artifact-manifest/src/lib.rs:1062-1062 | a leading slash, a leading dot, a parent step and a name are each one component of a target |
| PackageTree.EmptyStep | tools/artifact-manifest/src/lib.rs:1062-1062 | a second slash or a dot between two steps of a target changes nothing |
| PackageTree.VerifyPackageTree | tools/artifact-manifest/src/lib.rs:975-1085 | accepts if and only if every other file is the manifest, the symlinks are exactly the expected ones with the expected targets, and every artifact is found, symlinks on the way followed |
| PackageTree.AcceptedExactly | tools/artifact-manifest/src/lib.rs:975-1085 | by kinds of entries: accepted if and only if every file is declared or the manifest, nothing is a device or the like, the symlinks stand exactly where they are expected with the expected components, and every artifact is found with its size and hash |
| PackageTree.Undeclared | tools/artifact-manifest/src/lib.rs:1044-1075 | an undeclared file, a special entry or an unexpected link in the root directory is refused whatever else is there |
| PackageTree.LoneFile | tools/artifact-manifest/src/lib.rs:1047-1052 | one concrete file is accepted as the manifest and refused under another name, and a special entry is refused |
| PackageTree.ResolveAtLink | tools/artifact-manifest/src/lib.rs:994-1000 | where a declared path meets a symlink, what lies behind that link decides |
| PackageTree.FaithfulExactly | tools/artifact-manifest/src/lib.rs:994-1021 | the package holds exactly what its manifest declares if and only if it is accepted and no artifact is declared behind an expected link |
| PackageTree.ArtifactBehindLink | tools/artifact-manifest/src/lib.rs:994-1021 | a concrete package that is accepted although it holds no file |
| ModuleWalk.ReachNext | scripts/lib/verification_targets.py:409-432 | a declaration hands reachability and all inherited platforms down and adds its own |
| ModuleWalk.HandTo | scripts/lib/verification_targets.py:428-432 | either nothing is new, or the record strictly grows and an up-to-date entry is queued |
| ModuleWalk.HandAll | scripts/lib/verification_targets.py:403-432 | processing a queue entry, stale ones included, keeps the walk's invariant |
| ModuleWalk.Walk | scripts/lib/verification_targets.py:400-432 | terminates on every module graph, cycles included, and records for exactly the reached files exactly the platforms of all declaration paths |
| ModuleWalk.ResolveCrate | scripts/lib/verification_targets.py:379-447 | each reached file has the platforms of all paths to it plus its own; the unreachable ones are the sources no path reaches |
| TargetSelection.OwningPackage | scripts/lib/verification_targets.py:198-209 | the first member whose directory is a longest one that holds the file, and none only if no directory holds it |
| TargetSelection.Closure | scripts/lib/verification_targets.py:253-260 | the worklist computes the least set that holds the seeds and is closed under reverse dependency |
| TargetSelection.HostSuites | scripts/lib/verification_targets.py:212-267 | over the workspace's own directories: the owners of the changed files and everything that depends on them, or every suite as soon as one path is unclear or the workspace is unknown |
| TargetSelection.HostSuitesMonotone | scripts/lib/verification_targets.py:212-267 | a larger change never needs fewer suites |
| TargetSelection.BearingByText | scripts/lib/verification_targets.py:239-250 | outside `engine/` only paths under docs, platforms and the workflow directory are harmless, and a path inside has an owner or leaves everything open |
| TargetSelection.OutsideEngine | scripts/lib/verification_targets.py:239-253 | one changed file outside the engine and the three harmless directories runs every suite, and changes to the latter alone run none |
| TargetSelection.CrateExactly | scripts/lib/verification_targets.py:450-450 | the crate of a path is the name of letters, digits, underscores and hyphens between `engine/crates/` and the next slash |
| TargetSelection.AsksByText | scripts/lib/verification_targets.py:461-470 | which paths ask for the Java half, and which for linking the bridge crate, by their text |
| TargetSelection.GatedByText | scripts/lib/verification_targets.py:472-473 | the four crates with platform conditions ask for compiling, and no other crate for its name |
| TargetSelection.ExaminedByText | scripts/lib/verification_targets.py:475-479 | existing `.rs` files under a crate's `src` are looked up, and nothing but `.rs` files |
| TargetSelection.HighestTiers | scripts/lib/verification_targets.py:489-501 | each target ends at its highest demanded tier with the reasons of all of its demands, in whatever order they come |
| TargetSelection.CollectAsks | scripts/lib/verification_targets.py:460-487 | one path asks for exactly what its place, its crate and the platforms guarding any declaration path to it call for, with its crate walked at most once |
| TargetSelection.Select | scripts/lib/verification_targets.py:453-501 | over the crates' own module graphs: exactly the demanded targets, each at its highest tier and with all its reasons, and exactly the paths that no declaration path reaches as undetermined |
| TargetSelection.SelectMonotone | scripts/lib/verification_targets.py:453-501 | a larger change never drops a target, never lowers its tier and never loses a reason |
| JavaMasker.JavaMaskIdempotent | scripts/lib/jni_source.py:57-78 | masking a masked text changes nothing; length and newlines stay and a character changes only to a space |
| JavaMasker.Relex | scripts/lib/jni_source.py:57-78 | lexing the mask finds nothing left to hide |
| JavaMasker.MaskedTextIsCode | scripts/lib/jni_source.py:57-78 | a visible character of the mask that is no quote is program text at the same offset |
| JavaElements.ElementMasked | scripts/lib/jni_source.py:57-78 | a comment, a literal or another character in front of any text is masked by itself: comments vanish, of literals the quotes remain |
| JavaElements.ElementsMasked | scripts/lib/jni_source.py:57-78 | the mask of every text written as such elements, in any number and order |
| SourceMask.BlankRange | scripts/lib/jni_source.py:35-39 | blanks a range and leaves newlines |
| SourceMask.MaskQuoted | scripts/lib/jni_source.py:42-54 | blanks exactly the interior of a literal, escapes skipped in pairs, and returns the offset past its closing quote or the end |
| JavaMasker.MaskJava | scripts/lib/jni_source.py:57-78 | keeps exactly the characters that a character-by-character reference lexer of comments, strings and character literals classes as code or literal delimiters |
| JavaTextBlocks.MaskIsBlockMask | scripts/lib/jni_source.py:57-78 | the mask equals that of a lexer that also knows text blocks if and only if no text block holds an unescaped quote before its end |
| JavaTextBlocks.CommaInBlock | scripts/lib/jni_source.py:57-78 | a concrete text block whose comma stays visible |
| RustMasker.NestedCommentEnd | scripts/lib/jni_source.py:102-113 | the depth counter finds the end of a nested comment, or of the text |
| RustMasker.MaskElement | scripts/lib/jni_source.py:94-136 | one turn of the loop takes the masker past the element at the cursor with exactly the characters blanked that the lexer hides and that do not leak |
| RustMasker.MaskRaw | scripts/lib/jni_source.py:117-124 | a raw string's interior is blanked up to the quote that its own number of hashes follow; without one, the last characters of the text leak |
| RustMasker.MaskRust | scripts/lib/jni_source.py:89-137 | blanks exactly the characters that a character-by-character reference lexer, with comment depth and hash count, hides, except the leaks of an unclosed raw string |
| RustMasker.MaskIsStrict | scripts/lib/jni_source.py:89-137 | every comment and literal body is blanked if and only if no leaking character is anything but blank |
| RustMasker.LeakIsUnclosed | scripts/lib/jni_source.py:117-124 | a leak means that the text ends inside that raw string |
| RustMasker.ClosedIsStrict | scripts/lib/jni_source.py:89-137 | a text that does not end inside a raw string has every comment and literal body blanked |
| RustMasker.LeakingComma | scripts/lib/jni_source.py:117-124 | a concrete unclosed raw string whose comma stays |
| RustMasker.RustMaskIsMask | scripts/lib/jni_source.py:89-137 | length and newlines stay and a character changes only to a space |
| RustMasker.MaskedTextIsCode | scripts/lib/jni_source.py:89-137 | a visible character of the mask that is no quote and no hash is program text at the same offset if and only if it does not leak |
| RustForms.CharForms | scripts/lib/jni_source.py:81-83 | a quote starts a character literal exactly where a text of one of four written-out forms stands, and the literal ends there |
| RustForms.RawForms | scripts/lib/jni_source.py:84-85 | a raw string opens exactly at an optional b, an r, its hashes and a quote |
| RustForms.ClosingForm | scripts/lib/jni_source.py:119-124 | and closes at a quote that as many hashes follow |
| RustForms.IdentLetters | scripts/lib/jni_source.py:86-86 | the characters in front of which no raw string opens |
| RustRemask.RustMaskIdempotent | scripts/lib/jni_source.py:89-137 | masking a mask changes nothing if and only if no closing quote of a literal that the mask no longer shows as one opens another with something inside |
| RustRemask.StaysInStep | scripts/lib/jni_source.py:89-137 | up to the first such quote the lexers of text and mask stay in step |
| RustRemask.MaskedTwice | scripts/lib/jni_source.py:128-135 | a concrete text whose mask changes when masked again |
| SourceStructure.BalancedEnd | scripts/lib/jni_source.py:143-154 | the first closer at which nesting returns to zero, and none only if there is none |
| SourceStructure.BracketKinds | scripts/lib/jni_source.py:143-169 | the three kinds of brackets and what closes them |
| SourceStructure.BalancedMatches | scripts/lib/jni_source.py:143-154 | what the scan finds closes the bracket it started at, kinds compared, if and only if no closer up to there meets an opener of another kind |
| SourceStructure.MismatchedEnd | scripts/lib/jni_source.py:143-154 | a concrete text where the scan takes a bracket of another kind |
| SourceStructure.SplitArguments | scripts/lib/jni_source.py:157-169 | the text between the depth-zero commas of the mask |
| SourceStructure.CutsExact | scripts/lib/jni_source.py:160-167 | the cuts are all the depth-zero commas, in order |
| SourceStructure.PiecesRejoin | scripts/lib/jni_source.py:157-169 | the parts put back together are the text |
| SourceStructure.JavaSplit | scripts/lib/jni_source.py:57-169 | on Java source the cuts are exactly the depth-zero commas of what the lexer calls program text, never one in a comment, string or character literal, and the parts rejoin |
| SourceStructure.RustSplit | scripts/lib/jni_source.py:89-169 | on Rust source the cuts are exactly the depth-zero commas of the program text and those that leak, and a cut is one of program text if and only if it does not leak; the parts rejoin |
| SourceStructure.LeakingCut | scripts/lib/jni_source.py:117-169 | a concrete text that is split inside an unclosed raw string |
| JniDescriptor.ParseSound | scripts/lib/jni_source.py:249-271 | every accepted type sequence is the print of the types read, to the last character |
| JniDescriptor.ParsePrinted | scripts/lib/jni_source.py:249-271 | reading undoes printing for every list of types and array depths |
| JniDescriptor.DecodeOne | scripts/lib/jni_source.py:253-270 | one turn of the loop reads one type and gives its simple Java spelling, or fails where the notation does |
| JniDescriptor.DecodeSequence | scripts/lib/jni_source.py:249-271 | the spellings of all types, or failure |
| JniDescriptor.DecodeDescriptor | scripts/lib/jni_source.py:229-246 | parameters and result, or the reason there are none |
| JniDescriptor.DecodePrinted | scripts/lib/jni_source.py:229-271 | for every parameter list and result, decoding the printed descriptor returns the types' simple spellings |
| JniDescriptor.DecodedIsPrinted | scripts/lib/jni_source.py:229-271 | nothing but printed descriptors is accepted, with parameter names free of a closing parenthesis |
| JniDescriptor.DecodesIffPrinted | scripts/lib/jni_source.py:229-271 | the accepted texts are exactly the printed method types with parameter names free of a closing parenthesis |
| JniDescriptor.PrimitiveSpellings | scripts/lib/jni_source.py:216-226 | the nine codes and their Java spellings |
| JniDescriptor.ReferenceSpelling | scripts/lib/jni_source.py:262-266 | a class is spelled by what stands behind the last slash of its name |
| JniDescriptor.ArraySpelling | scripts/lib/jni_source.py:253-270 | every array dimension is one marker in front and one pair of brackets behind |
| JniDescriptor.VoidParameterDecodes | scripts/lib/jni_source.py:214-226 | a concrete descriptor with a void parameter decodes |
| JniDescriptor.VoidExact | scripts/lib/jni_source.py:214-246 | an accepted descriptor keeps void for the bare result if and only if its text has no V outside class names among the parameters or behind an array marker |
| Bytes.U64Reads | scripts/lib/macho_build_version.py:303-306 | a 64-bit number in either byte order reads back wherever it stands |
| Bytes.ParsePadded | scripts/lib/macho_build_version.py:232-235 | a decimal field padded with spaces reads back |
| Bytes.ByteOrder | scripts/lib/macho_build_version.py:181-183 | the place value of each byte of a 32-bit number in either byte order |
| Bytes.ParseSigned | scripts/lib/macho_build_version.py:232-238 | a sign in front of a decimal field counts |
| Bytes.ParseAlphabet | scripts/lib/macho_build_version.py:232-238 | what is read as a number holds a digit, and nothing but digits, underscores, signs and white space |
| Bytes.SpaceBytes | scripts/lib/macho_build_version.py:233-233 | the white space that is stripped from a decimal field |
| MachO.MagicIsNative | scripts/lib/macho_build_version.py:51-63 | the magics are the byte sequences that read as one number in the byte order they announce |
| MachO.Landmarks | scripts/lib/macho_build_version.py:45-45 | an archive's landmarks, as text |
| MachO.ParseCommands | scripts/lib/macho_build_version.py:187-221 | the cursor loop over the whole file computes a function of the command table's own bytes |
| MachO.ParseCommand | scripts/lib/macho_build_version.py:196-220 | one command contributes what its own payload says, and is refused if that is too short |
| MachO.ParseMachO | scripts/lib/macho_build_version.py:169-221 | an object contributes a function of its own bytes: no field outside the slice or member that declares it is used |
| MachO.ParseMember | scripts/lib/macho_build_version.py:230-262 | header, name and content of one member, all within the archive, or a refusal |
| MachO.ParseArchive | scripts/lib/macho_build_version.py:224-273 | the member loop terminates and computes a function of the archive's own bytes |
| MachO.ParseContainer | scripts/lib/macho_build_version.py:276-290 | a slice contributes a function of its own bytes, even though its magic is looked up before its size is checked |
| MachO.ParseFat | scripts/lib/macho_build_version.py:293-327 | slices within the file, each architecture once, each read from its own bytes |
| MachO.ReadFile | scripts/lib/macho_build_version.py:330-346 | the whole reader against its specification: a report, a refusal, or a file it does not own |
| MachO.ReadsPastTheEnd | scripts/lib/macho_build_version.py:293-299 | the unpacking library's error arises if and only if a universal file is shorter than its own header |
| MachO.ContainerReadable | scripts/lib/macho_build_version.py:276-290 | whether a slice can be read depends on its own bytes only, and reading it adds no architecture but its own |
| MachO.FatAccepted | scripts/lib/macho_build_version.py:293-327 | a universal file is read if and only if its rows fit, every slice lies in the file and can be read by itself, and no architecture is named twice |
| MachONames.ProcessorReads | scripts/lib/macho_build_version.py:158-161 | the name of every processor is found from what is written for it |
| MachONames.TitlesDiffer | scripts/lib/macho_build_version.py:93-101 | no two processors share a name, unlisted ones included |
| MachONames.SameArchitecture | scripts/lib/macho_build_version.py:158-161 | two headers count as one architecture if and only if their processor types are the same and, for 64-bit arms, both or neither have the masked subtype two |
| MachONames.PlatformReads | scripts/lib/macho_build_version.py:78-91 | the platform names, and a numbered name for every other platform |
| MachONames.MinimumReads | scripts/lib/macho_build_version.py:71-76 | the four old version commands with their platforms |
| MachONames.VersionReads | scripts/lib/macho_build_version.py:150-155 | a packed version is shown as its numbers with dots between them, a patch of zero left out |
| MachONames.VersionParts | scripts/lib/macho_build_version.py:150-155 | taken apart at its dots the shown version gives back the numbers |
| MachOWriter.PayloadReads | scripts/lib/macho_build_version.py:196-220 | both kinds of version command report the platform and version that were written; other commands report nothing |
| MachOWriter.CommandsRead | scripts/lib/macho_build_version.py:187-221 | a written command table yields the version of every command, once, in order |
| MachOWriter.ObjectReads | scripts/lib/macho_build_version.py:169-221 | a written object, in either width and byte order, counts once and reports all of its versions under its architecture |
| MachOWriter.EntryTaken | scripts/lib/macho_build_version.py:230-273 | a written member, with a short or a BSD long name and even padding, is found with its name and content, and the next one behind it |
| MachOWriter.EntriesRead | scripts/lib/macho_build_version.py:224-273 | a written archive yields all of its objects and skips all other members; up to 59 bytes behind the last one are ignored |
| MachOWriter.TruncatedArchive | scripts/lib/macho_build_version.py:229-242 | for every cut through the last member of an archive: inside its header the member goes unnoticed, inside its body the read fails, behind it the member is read |
| MachOWriter.ContainerReads | scripts/lib/macho_build_version.py:276-290 | a written object or archive reads back |
| MachOWriter.RowReads | scripts/lib/macho_build_version.py:301-312 | a written row of the universal header reads back, in either width and byte order |
| MachOWriter.SlicesRead | scripts/lib/macho_build_version.py:301-327 | from any row on, rows that point at slices read back one after the other, wherever the slices lie |
| MachOWriter.LaidIsPlaced | scripts/lib/macho_build_version.py:301-316 | the rows of a written file point at its slices |
| MachOWriter.UniversalReads | scripts/lib/macho_build_version.py:293-327 | every universal file with such rows reads back, its slices in any order, with any gaps, even overlapping |
| MachOWriter.DistinctProcessors | scripts/lib/macho_build_version.py:313-325 | no architecture twice means no processor twice |
| MachOWriter.FileReads | scripts/lib/macho_build_version.py:330-346 | reading undoes writing for every object, archive and universal file |
| MachOWriter.CollectTallies | scripts/lib/macho_build_version.py:144-147 | every object is counted once, under its own architecture and under no other |
| MachOWriter.UniversalReported | scripts/lib/macho_build_version.py:293-327 | the report names exactly the slices' architectures, and each holds the number of objects in its slice and the versions of all of them |
| MachOWriter.PlainReported | scripts/lib/macho_build_version.py:340-345 | the report of an object or archive holds each object once, under the architecture its own header names |
| PngFilter.UnfilterSub | scripts/lib/dominant_pixel.py:37-39 | the in-place loop restores a Sub row, or fails on a truncated one |
| PngFilter.UnfilterFromAbove | scripts/lib/dominant_pixel.py:40-55 | the in-place loops restore Up, Average and Paeth rows, or fail on a truncated one |
| PngFilter.UnfilterLine | scripts/lib/dominant_pixel.py:37-57 | the row is restored in place for every filter type, and an unknown type fails |
| PngFilter.Unfilter | scripts/lib/dominant_pixel.py:27-60 | the row loop computes the specified image or the specified failure |
| PngFilter.RestoreFiltered | scripts/lib/dominant_pixel.py:37-55 | restoring a filtered row gives the row back, for every filter, byte by byte modulo 256 |
| PngFilter.FilterRestored | scripts/lib/dominant_pixel.py:37-55 | filtering a restored row gives the line back, so no two lines restore to one row |
| PngFilter.RoundTrip | scripts/lib/dominant_pixel.py:27-60 | for every image and every choice of filter per row, unfiltering the filtered scanlines returns the image |
| PngFilter.PaethIsNearest | scripts/lib/dominant_pixel.py:47-54 | the Paeth choice is a neighbour nearest to left plus above minus upper left, ties to the left, then above |
| PngFilter.RowEquations | scripts/lib/dominant_pixel.py:37-55 | every byte of a restored row solves its filter's equation, four bytes to a pixel and modulo 256 |

## Left out

- Node DSP, parameter automation, PCM budgets, decoders and 32-bit floating-point arithmetic: nodes and sample arithmetic are uninterpreted operations, and a node's port counts are fixed when it is added.
- The audio-buffer store of a context (`add_buffer` and its relatives), the individual typed setters behind the generic state update, tracing and the mutex wrapper around the cache.
- Machine widths: `u32`, `u64` and `usize` counters, sizes and ids are unbounded naturals, so wrap-around of the access counter, the frame clock and edge ids is not modelled.
- Reuse of allocations: `in_degree`, the ready queue and the mix buffer are locals, the borrowed `processing_order` cursor is a local of its own, and the adjacency vectors are sequences in one record, so aliasing and capacity are not captured.
- AudioCaches.AudioCache.Insert: the size in bytes is a parameter, where the engine computes it from the vector's capacity.
- SHA-256: an abstract function of its preimage whose results are 64 hexadecimal digits.
- CanonicalJson.Manifest.Seal: the fields are a JSON object already; serialising the manifest record is not modelled. The same class stands for the slice and for the V8 component manifest.
- `require_sorted_unique` and the field-by-field manifest validators: settled by reading.
- PackageTree.VerifyPackageTree: entry paths are component lists, what lies behind a symlink is an arbitrary function, names are taken to be valid UTF-8 and I/O errors do not occur.
- ModuleWalk.ResolveCrate: finding `mod` declarations, conditions and child files in the text is left to the caller, which lists the declarations whose files exist; so TargetSelection.Select starts from module graphs and not from source text.
- TargetSelection.HostSuites: running `cargo metadata` and making paths absolute come from outside, the reason strings are dropped, and the result is a set where the script returns a sorted tuple.
- Error messages: collapsed to one or a few error values per component.
- RustMasker.MaskRust: what opens a raw string and what is a character literal is what the script's two regular expressions say, as functions on the text; Rust's own rules for digit separators in escapes and for C-string prefixes are not modelled.
- JNI descriptor tables and the whitespace helpers of the same file: regular-expression searches with nothing behind them to prove.
- JavaTextBlocks.MaskIsBlockMask: Unicode escapes in Java source, which the language resolves before it lexes, are not modelled.
- MachO.ReadFile: member names are bytes where the script decodes UTF-8 with replacement and strips Unicode whitespace, and printing reports is not modelled.
- PNG chunk parsing, decompression and pixel sampling.
- Session, surface, input, barrier and resource-lane protocols: not modelled.
- CI, supply-chain, evidence and hygiene scripts, the source-proof and probe-decision tools, Swift packages, game fixtures and the GL oracle.
