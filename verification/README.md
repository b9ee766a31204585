# gem5 tools and configuration scripts: a model in Dafny

gem5 ships with scripts around the simulator. They migrate and merge checkpoints, draw pipeline
traces, convert traces, rebuild a system from a configuration file, and lay out networks and cache
trees. This project models the ones with the most intricate behaviour and proves what holds of them
for every input, every run or every reachable state. One module stands for one component.

- `MigrationSchedule`, `MigrationRegistry` — `util/cpt_upgrader.py`. Rounds of "everything ready"
  until all tags are applied or none is ready. Without downgraders a migration aborts exactly when
  there is a dependency cycle, a tag is applied in the round of its longest chain of missing
  dependencies, and any order of application ends the same. A file that was written has nothing to
  do a second time exactly when every upgraded tag is one word. The header says that a dependency on a
  downgraded tag waits for its removal; the code waits for its presence, and both the failure and the
  exact condition are stated.
- `PipeSorter`, `PipeTimeline` — `util/o3-pipeview.py`. A queue of bounded length sorts a trace if
  and only if the trace is safe at every flush. The comment's bound is enough but not necessary. A
  timeline is proved equal to a reference drawing, column by column.
- `MeshTopology`, `ShortestPath`, `XYRouting`, `RoutingTables`, `MeshRoutes` — the XY mesh, from the
  links of `MeshDirCorners_XY.py` through the weight matrix, the shortest paths and the routing tables
  of `Topology.cc` to the lookup of `RoutingUnit.cc` and whole routes. The tables route XY exactly as
  far as weighted distances stay below the number that stands for infinity, and no set of channels
  waits in a circle.
- `ClusterTopology` — `configs/topologies/Cluster.py`. Whatever the tree of clusters, the routers
  form a tree with the links and settings the clusters ask for.
- `PortBinder`, `PortChains` — `configs/example/read_config.py`. The greedy pass binds all ports
  exactly when some choice of directions in sorted order replays the recorded indices, and also exactly
  when the indices are unique and contiguous and no chain of connections runs past the places where
  its last one is listed. The comment that one direction of every pair is bindable is refuted twice.
- `Protolib`, `InstDepTrace` — `util/protolib.py` and the pair of scripts that print and parse
  instruction dependency traces. Each round trip comes with its exact condition. The varint is that
  of "Base 128 Varints" in the Protocol Buffers Encoding specification.
- `CheckpointAggregator` — `util/checkpoint_aggregator.py`. Renaming is invertible, no section name
  comes twice, every item keeps its place and meaning, and relocated addresses find their bytes in the
  merged image.
- `CheckpointScript`, `CpuSwitching` — `configs/common/Simulation.py`. The loops that take scripted
  checkpoints and switch CPUs, against every simulator that stops no later than asked, with where and
  why each run ends. Two promises fail and come with their exact conditions: that checkpoints of the
  guest are skipped, and that the caller's guard keeps a switching run within its last tick.
- `MemTestTree` — `configs/example/memtest.py`. The tree of caches has exactly the testers that were
  counted in advance.
- `CopyrightYears` — `util/find_copyrights.py`. Years are printed as maximal ranges; they read back
  if and only if neighbouring years have four digits.
- `Arithmetic`, `Counting`, `Sorting`, `Text` hold what several modules share.

Where the source updates something in place, the model is a method or a class proved against
functions on values; the theorems are about those functions. `hide` keeps bodies out of proofs that
do not need them. `dafny verify dfyconfig.toml` checks the whole project.

Code and documentation disagree in the places below. The model follows the code.

- `util/cpt_upgrader.py` 60-65 against 140-144: see `MigrationSchedule.DowngradesPrecedeIff`.
- `util/o3-pipeview.py` 51-52, "otherwise they will appear out of order": see
  `PipeSorter.DisorderBoundNotNeeded` and `PipeSorter.SortsIffFlushSafe`.
- `configs/topologies/MeshDirCorners_XY.py` 36, "XY routing is enforced": see
  `MeshRoutes.RoutesEverywhereIff`; and 85, "unique link ids": see `MeshTopology.UniqueIdsIff`.
- `configs/example/read_config.py` 311-313: see `PortBinder.CrossedNeverBinds` and
  `PortChains.BindsIffChainsInTime`.
- `configs/common/Simulation.py` 715-718 and `configs/common/Options.py` 268-269: see
  `CheckpointScript.ScheduleKeptIff`.

## Model

| member | source | states |
|---|---|---|
| MigrationSchedule.Run | util/cpt_upgrader.py:240-252 | a run stops where nothing is ready, and is done only where nothing is left |
| MigrationSchedule.ApplyShrinksTodo | util/cpt_upgrader.py:240-252 | applying a batch of work leaves exactly the rest of the work, whichever of it are upgrades and downgrades |
| MigrationSchedule.RunIsAfter | util/cpt_upgrader.py:241-252 | every run ends with the tags after some number of rounds |
| MigrationSchedule.UnrelatedTagsKept | util/cpt_upgrader.py:146-154 | after any number of rounds tags without a script are untouched, no upgraded tag is lost and no downgraded one is gained |
| MigrationSchedule.FinalTags | util/cpt_upgrader.py:238-252 | a run that succeeds ends with the old tags and all upgraded ones, less all downgraded ones, for every registry |
| MigrationSchedule.UpToDateIffDisjoint | util/cpt_upgrader.py:64-65 | some checkpoint is up to date if and only if no tag has both an upgrader and a downgrader |
| MigrationSchedule.DowngradesPrecedeIff | util/cpt_upgrader.py:60-65 | in a run that succeeds, downgraded dependencies are gone before their dependents run if and only if no tag with work to do has such a dependency |
| MigrationSchedule.DowngradesPrecedeFails | util/cpt_upgrader.py:60-65 | a registry and a checkpoint where a dependent runs before the downgrade it depends on, and the migration succeeds |
| MigrationSchedule.RemovedDependencyAborts | util/cpt_upgrader.py:140-144 | a tag that depends on a downgraded tag which is already gone makes the migration abort |
| MigrationSchedule.TodoShrinks | util/cpt_upgrader.py:240-252 | work that is left after any number of rounds was there from the start |
| MigrationSchedule.RoundOf | util/cpt_upgrader.py:241-252 | work that is done after some rounds was ready in one of them |
| MigrationSchedule.WaitsForDependency | util/cpt_upgrader.py:140-144 | without downgraders, a tag waits on after a round if and only if one of its dependencies was waiting |
| MigrationSchedule.WaitingIffLongChain | util/cpt_upgrader.py:240-252 | after k rounds a tag waits if and only if it starts a chain of more than k missing dependencies |
| MigrationSchedule.RoundIsLongestChain | util/cpt_upgrader.py:240-252 | a tag is applied in round k if and only if its longest chain of missing dependencies has k members |
| MigrationSchedule.CycleUnrolls | util/cpt_upgrader.py:243-246 | a tag on a dependency cycle starts chains of every length |
| MigrationSchedule.LongChainCycles | util/cpt_upgrader.py:243-246 | a chain longer than there are missing tags contains a cycle |
| MigrationSchedule.AbortIffCycle | util/cpt_upgrader.py:243-246 | for every audited registry without downgraders and every checkpoint, the migration aborts if and only if the missing tags depend on each other in a cycle |
| MigrationSchedule.AnyOrderSameResult | util/cpt_upgrader.py:248-252 | any one-at-a-time order that respects dependencies and cannot go on ends with the same tags as the rounds, and covers all missing tags if and only if the rounds succeed |
| MigrationRegistry.WordsReadBack | util/cpt_upgrader.py:224-258 | tags that are words, joined by spaces in any order, are read back by splitting |
| MigrationRegistry.WrittenTags | util/cpt_upgrader.py:240-258 | what is written has all upgraded tags, no downgraded one, and besides only tags that are words |
| MigrationRegistry.SecondRunNothingToDoIff | util/cpt_upgrader.py:211-262 | for every registry, a file that was written, from tags or from a linear version and in any order, has nothing to do a second time if and only if every upgraded tag is one word |
| MigrationRegistry.TwoWordsAppliedAgain | util/cpt_upgrader.py:224-258 | a tag of two words is written as one and read as two, and the upgrader is applied again |
| MigrationRegistry.Upgraders.LegacyIsWithin | util/cpt_upgrader.py:135-138 | the tags of legacy versions are among those that have scripts |
| MigrationRegistry.Upgraders.JoinTags | util/cpt_upgrader.py:258-258 | the names of the tags with spaces between them, in some order |
| MigrationRegistry.Upgraders.Register | util/cpt_upgrader.py:118-138 | an object is filed by kind, legacy version and tag |
| MigrationRegistry.LoadedMeans | util/cpt_upgrader.py:138-138 | every script is filed under its tag, and no tag is filed without a script |
| MigrationRegistry.VersionsMeans | util/cpt_upgrader.py:135-136 | a legacy version stands for the last script that claims it |
| MigrationRegistry.Upgraders.LinkLegacy | util/cpt_upgrader.py:167-171 | versions from 3 on without a gap come to depend on exactly the version before; it fails if and only if there is a version 3 and no version 2 |
| MigrationRegistry.LinkedMeans | util/cpt_upgrader.py:167-171 | each linked version depends on exactly the one before it, and every other tag on what it did |
| MigrationRegistry.Upgraders.Forward | util/cpt_upgrader.py:175-180 | forward dependencies of a tag are turned round; it fails if and only if one of them does not exist |
| MigrationRegistry.Upgraders.Audit | util/cpt_upgrader.py:181-185 | a tag passes if and only if all its dependencies exist |
| MigrationRegistry.Upgraders.Resolve | util/cpt_upgrader.py:173-185 | in whatever order tags are visited, it succeeds if and only if every named tag exists, and then each tag depends on what it names and on what names it forward |
| MigrationRegistry.KnownMeans | util/cpt_upgrader.py:174-185 | the audit passes if and only if every tag that is named in a list of dependencies has a script |
| MigrationRegistry.TurnedMeans | util/cpt_upgrader.py:174-180 | in the end a tag depends on what it did and on everything that names it forward |
| MigrationRegistry.Upgraders.LoadAll | util/cpt_upgrader.py:161-185 | loading succeeds if and only if linking does and all named tags exist; the loaded registry is audited and has exactly the linked and turned dependencies |
| MigrationRegistry.Upgraders.IsReady | util/cpt_upgrader.py:140-144 | ready if and only if all dependencies are present |
| MigrationRegistry.Upgraders.Update | util/cpt_upgrader.py:146-154 | an upgrader adds its tag, a downgrader removes it |
| MigrationRegistry.Upgraders.ReadyTags | util/cpt_upgrader.py:242-242 | exactly the work whose dependencies are present |
| MigrationRegistry.Upgraders.ApplyBatch | util/cpt_upgrader.py:248-250 | in whatever order, the batch is applied as a whole and each tag once |
| MigrationRegistry.Upgraders.MigrateTags | util/cpt_upgrader.py:238-252 | the loop gives the outcome of the rounds; its log is the work that got done, each tag once, and without downgraders a schedule that cannot go on |
| MigrationRegistry.Upgraders.ConvertVersion | util/cpt_upgrader.py:216-218 | a linear version stands for exactly the tags of versions 2 up to it, all of which must be there |
| MigrationRegistry.Upgraders.ProcessFile | util/cpt_upgrader.py:208-262 | every outcome of processing a file: a missing version, a legacy version without a script, nothing to do exactly for up-to-date tags in text form; otherwise a tag is applied exactly when it is there at first (as a word of the text, or as one of versions 2 up to that of the file) or at last but not both, no upgraded tag is lost, no downgraded one gained, and no other changes; the log runs tags behind their dependencies |
| PipeSorter.FlushConserves | util/o3-pipeview.py:167-188 | flushing neither loses nor repeats an instruction |
| PipeSorter.RunConserves | util/o3-pipeview.py:159-188 | at any time what was popped and what is queued are the instructions that arrived |
| PipeSorter.OutputConserves | util/o3-pipeview.py:128-149 | for every trace each instruction is popped exactly once |
| PipeSorter.RunQueueLength | util/o3-pipeview.py:159-170 | the length of the queue after any number of arrivals, and so when it is flushed |
| PipeSorter.DisorderBoundIsSafe | util/o3-pipeview.py:51-52 | a trace out of order by no more than the lower threshold is safe at every flush |
| PipeSorter.DisorderBoundNotNeeded | util/o3-pipeview.py:51-52 | a trace out of order by more may still be safe: one that comes backwards but fits the queue |
| PipeSorter.RunInOrder | util/o3-pipeview.py:159-170 | on a safe trace what was popped followed by the sorted queue is the sorted trace, after every arrival |
| PipeSorter.LargerWasPopped | util/o3-pipeview.py:167-171 | with more larger instructions than a flush leaves, one of them was popped |
| PipeSorter.RemainderComesLater | util/o3-pipeview.py:159-188 | what was not popped comes out behind everything that was |
| PipeSorter.SortsIffFlushSafe | util/o3-pipeview.py:47-52 | for all thresholds and traces the output is sorted if and only if the trace is safe at every flush, and then it is what sorting the whole trace at once gives |
| PipeSorter.PrintQueue.PrintInsts | util/o3-pipeview.py:167-188 | the queue is flushed to the threshold, and the wanted instructions among those popped are printed |
| PipeSorter.PrintQueue.QueueInst | util/o3-pipeview.py:159-164 | an instruction is queued, and the queue flushed if it is too long |
| PipeSorter.PrintQueue.ProcessTrace | util/o3-pipeview.py:126-149 | each instruction within the boundaries that are set is printed as often as it arrived and no other, in sequence order if the trace is safe |
| PipeTimeline.StagesAre | util/o3-pipeview.py:196-223 | the tick, the letter and the name of each stage |
| PipeTimeline.Print.Base | util/o3-pipeview.py:227-228 | the base tick is a multiple of the timeline, and the fetch is within one timeline of it |
| PipeTimeline.ColumnIsCycleModWidth | util/o3-pipeview.py:260-283 | the column of a tick is its cycle modulo the width |
| PipeTimeline.OnExactlyOneLine | util/o3-pipeview.py:239-262 | in either form, a stage reached from the base tick on is an event of exactly one line, and one before it of none |
| PipeTimeline.DrawNext | util/o3-pipeview.py:272-283 | one round of drawing extends the reference cells up to the event's column |
| PipeTimeline.CellsBehind | util/o3-pipeview.py:284-284 | behind the last event there are only dots |
| PipeTimeline.CellsDistinct | util/o3-pipeview.py:272-284 | with one event to a column, each column shows its own glyph |
| PipeTimeline.WidthIffDistinct | util/o3-pipeview.py:272-284 | a line has exactly the width in glyphs if and only if no two of its events share a column |
| PipeTimeline.DrawnEvents | util/o3-pipeview.py:255-275 | what is drawn on a line are exactly its stages less a dispatch in the tick of the issue, in the order of their columns |
| PipeTimeline.StageInItsColumn | util/o3-pipeview.py:272-284 | the letter of a stage stands in the column of its cycle |
| PipeTimeline.ColumnShows | util/o3-pipeview.py:247-282 | a line with one event to a column shows in each the letter of its stage, or a dot, or an equals sign if the instruction did not retire; store completion only on request, and no dispatch in the tick of the issue |
| PipeTimeline.DrawnInOrder | util/o3-pipeview.py:255-263 | letters stand in the order of their offsets, and with equal offsets of the names of their stages |
| PipeTimeline.LinesNeeded | util/o3-pipeview.py:230-242 | how many lines there are, against the ticks of the stages |
| PipeTimeline.RenderLines | util/o3-pipeview.py:249-294 | every line is the reference rendering of its events |
| PipeTimeline.CompactHasEvents | util/o3-pipeview.py:268-268 | the compact form has a first event if and only if some stage was reached |
| PipeTimeline.CollectEvents | util/o3-pipeview.py:255-262 | the events of a line, in stage order |
| PipeTimeline.Draw | util/o3-pipeview.py:266-284 | the drawing loop draws the reference cells |
| PipeTimeline.PrintInst | util/o3-pipeview.py:227-294 | printing fails if and only if no stage was reached; there is one line if and only if every stage is less than one timeline behind the fetch, and otherwise the latest stage is on the last line; lines start one timeline apart, the first with the timeline of the fetch, and each is the reference rendering |
| ShortestPath.DistanceStep | src/mem/ruby/network/Topology.cc:217-255 | a link followed by a shortest walk is no shorter than the distance |
| ShortestPath.TriangleBounds | src/mem/ruby/network/Topology.cc:217-255 | a matrix where no detour is shorter bounds the weight of every walk from below |
| ShortestPath.FixpointIsDistances | src/mem/ruby/network/Topology.cc:217-255 | where a pass changes nothing, every entry is the least weight of a walk |
| ShortestPath.BestThrough | src/mem/ruby/network/Topology.cc:230-243 | the best of going directly and of all ways through one switch |
| ShortestPath.PassRow | src/mem/ruby/network/Topology.cc:229-252 | a row updated in place stays between distance and weight, and is unchanged only if it was relaxed |
| ShortestPath.Pass | src/mem/ruby/network/Topology.cc:227-253 | each pass that changes something makes the matrix smaller |
| ShortestPath.AllPairs | src/mem/ruby/network/Topology.cc:219-264 | for every weight matrix the computation stops with all distances |
| MeshTopology.AddDirection | configs/topologies/MeshDirCorners_XY.py:128-186 | the links of one direction: one for each pair of neighbours, numbered on |
| MeshTopology.Classify | configs/topologies/MeshDirCorners_XY.py:56-67 | caches, directories and DMA controllers, each in order |
| MeshTopology.ConnectControllers | configs/topologies/MeshDirCorners_XY.py:88-121 | caches round-robin, directories at the corners, DMA controllers at router 0 |
| MeshTopology.MakeTopology | configs/topologies/MeshDirCorners_XY.py:44-189 | a mesh is built if and only if the parameters fit together, and then with exactly the links of a mesh |
| MeshTopology.CachesShared | configs/topologies/MeshDirCorners_XY.py:76-96 | every router gets the same number of caches |
| MeshTopology.DirectoriesAtCorners | configs/topologies/MeshDirCorners_XY.py:98-121 | the four directories are at the four corners, and DMA controllers at the first |
| MeshTopology.UniqueIdsIff | configs/topologies/MeshDirCorners_XY.py:85-121 | link ids are unique if and only if there is no DMA controller, or one on a single router |
| MeshTopology.NoLinksIffSingle | configs/topologies/MeshDirCorners_XY.py:125-186 | there are no mesh links if and only if there is one router |
| XYRouting.Feasible | src/mem/ruby/network/Topology.cc:226-254 | the weighted distance, cut off at infinity, drops by no more than the weight of a link |
| XYRouting.PotentialBounds | src/mem/ruby/network/Topology.cc:226-254 | so it bounds the weight of every walk to a destination |
| XYRouting.NextRouterNearer | configs/topologies/MeshDirCorners_XY.py:34-36 | an XY hop is a link and brings the message nearer by exactly its weight |
| XYRouting.SwitchDistance | src/mem/ruby/network/Topology.cc:257-264 | the computed distance from router to controller is the weighted distance plus one, cut off at 10000 |
| XYRouting.NodeDistance | src/mem/ruby/network/Topology.cc:257-264 | out of a destination there is no way but to itself |
| XYRouting.AdmitsRouter | src/mem/ruby/network/Topology.cc:266-309 | a link between routers is listed for a destination if and only if it brings it nearer and a distance was found |
| XYRouting.AdmitsNode | src/mem/ruby/network/Topology.cc:266-309 | a link to a controller is listed for that controller only |
| XYRouting.LookupIsXY | configs/topologies/MeshDirCorners_XY.py:34-36 | for every mesh, router and destination the lightest listed link is the XY hop and only that if the weighted distance is below 10000, and no link is listed otherwise |
| XYRouting.CornersFarthest | configs/topologies/MeshDirCorners_XY.py:128-186 | opposite corners are farthest apart |
| XYRouting.NothingAdmitted | src/mem/ruby/network/Topology.cc:42-42 | at a weighted distance of 10000 or more no link at all is listed |
| RoutingTables.ControllersNumbered | src/mem/ruby/network/Topology.cc:68-84 | controllers of the known kinds numbered without gaps are so in the network |
| RoutingTables.BuiltIsMesh | src/mem/ruby/network/Topology.cc:51-105 | the network that is built is the mesh the theorems are about |
| RoutingTables.EntrySound | src/mem/ruby/network/Topology.cc:133-142 | every connection filled in has the weight of the mesh |
| RoutingTables.EntryComplete | src/mem/ruby/network/Topology.cc:133-142 | every connection of the mesh is filled in |
| RoutingTables.FilledIsWeight | src/mem/ruby/network/Topology.cc:119-142 | the filled matrix is the weight matrix of the mesh, infinity and zero included |
| RoutingTables.FillWeights | src/mem/ruby/network/Topology.cc:119-142 | infinity everywhere, zero on the diagonal, then every connection |
| RoutingTables.CountSwitches | src/mem/ruby/network/Topology.cc:110-120 | one more than the largest switch number |
| RoutingTables.Solve | src/mem/ruby/network/Topology.cc:107-146 | the matrices of a mesh network are its weights and distances |
| RoutingTables.ShortestPathToNode | src/mem/ruby/network/Topology.cc:274-309 | the destinations a link is on a shortest path to |
| RoutingTables.CreateLinks | src/mem/ruby/network/Topology.cc:148-157 | the routing table of a switch: every link with exactly its destinations |
| RoutingTables.LookupRoutingTable | src/mem/ruby/network/garnet2.0/RoutingUnit.cc:68-116 | fails if and only if no link lists the destination, and otherwise picks one of the lightest |
| RoutingTables.RouteOnce | src/mem/ruby/network/garnet2.0/RoutingUnit.cc:61-116 | the lookup gives the XY hop whichever candidate is picked, and no route if and only if the destination is 10000 or more away |
| RoutingTables.RouteArrives | configs/topologies/MeshDirCorners_XY.py:34-36 | the XY route of the reference arrives after exactly as many hops as there are columns and rows in between |
| RoutingTables.DirectionAgrees | src/mem/ruby/network/garnet2.0/RoutingUnit.cc:175-232 | the link the tables choose is the one that routing by port directions chooses |
| RoutingTables.WaitsRise | configs/topologies/MeshDirCorners_XY.py:36-36 | a channel waits only for channels of higher rank |
| RoutingTables.NoCyclicWait | configs/topologies/MeshDirCorners_XY.py:36-36 | in a mesh of any size no set of channels waits in a circle |
| MeshRoutes.TablesLeadOn | src/mem/ruby/network/garnet2.0/RoutingUnit.cc:61-116 | from every switch of the XY route the tables lead to the next one and nowhere else |
| MeshRoutes.TablesArrive | src/mem/ruby/network/garnet2.0/RoutingUnit.cc:61-116 | every path through the tables is the XY route; it can be extended until it reaches the controller, which is after exactly the hops in between and the ejection |
| MeshRoutes.Deliver | src/mem/ruby/network/garnet2.0/RoutingUnit.cc:61-173 | looking up router by router, a message arrives, whatever candidates are picked, if and only if it starts less than 10000 away |
| MeshRoutes.RoutesEverywhereIff | configs/topologies/MeshDirCorners_XY.py:34-36 | in a mesh that was built every router has a route to every controller if and only if columns - 1 + 2 (rows - 1) is below 10000 |
| MeshRoutes.RowTooLong | src/mem/ruby/network/Topology.cc:42-42 | a row of 10001 routers is built, and a message from its first router to the directory at its end is lost |
| ClusterTopology.Counters.NumIntLinks | configs/topologies/Cluster.py:44-47 | the next number, and the counter one higher |
| ClusterTopology.Counters.NumExtLinks | configs/topologies/Cluster.py:48-51 | the next number, and the counter one higher |
| ClusterTopology.Counters.NumRouters | configs/topologies/Cluster.py:52-55 | the next number, and the counter one higher |
| ClusterTopology.ConnectCluster | configs/topologies/Cluster.py:88-112 | the two links between a cluster and a sub-cluster, with the settings of the rule |
| ClusterTopology.ConnectController | configs/topologies/Cluster.py:114-124 | the link of a controller, with the settings of its cluster |
| ClusterTopology.MakeTopology | configs/topologies/Cluster.py:76-124 | whatever the network and counters before, the fabric of the cluster is added and the counters advance by its sizes |
| ClusterTopology.LeavesCount | configs/topologies/Cluster.py:126-128 | the length of a cluster is the number of controllers in its tree |
| ClusterTopology.Counts | configs/topologies/Cluster.py:76-128 | one router for each cluster, two links for each but the topmost, and as many external links as the length |
| ClusterTopology.ConsecutiveNumbers | configs/topologies/Cluster.py:43-55 | routers, internal and external links are each numbered consecutively |
| ClusterTopology.EveryLinkAskedFor | configs/topologies/Cluster.py:58-124 | links come in opposite pairs between a cluster and its sub-cluster, with the external setting of the sub-cluster unless it is zero, else the internal one of the cluster, else the default; and a controller is attached to its own cluster |
| ClusterTopology.ControllersAttached | configs/topologies/Cluster.py:113-124 | every controller of the tree is attached, from left to right |
| ClusterTopology.RoutersFormTree | configs/topologies/Cluster.py:84-112 | every router but the topmost has exactly one pair of links to a router above |
| ClusterTopology.Connected | configs/topologies/Cluster.py:84-112 | every router is joined to the topmost by links in both directions |
| ClusterTopology.Acyclic | configs/topologies/Cluster.py:84-112 | no three or more routers are linked in a cycle |
| ClusterTopology.BuiltIsTree | configs/topologies/Cluster.py:76-124 | whatever the tree of clusters, the routers built for it are connected and without cycles |
| PortBinder.InOrderIsOrder | configs/example/read_config.py:148-150 | connections are totally ordered |
| PortBinder.InOrderIff | configs/example/read_config.py:148-150 | the order is decided by the first difference: the end a connection starts from before the other, and of an end the object before the port before the index |
| Text.CompareStringsIff | configs/example/read_config.py:148-150 | a string is below another if and only if after some common characters it ends or has the smaller one |
| PortBinder.TakenIffBelow | configs/example/read_config.py:303-331 | the taken indices of a port are exactly those below its count |
| PortBinder.EndsBoundOnce | configs/example/read_config.py:303-331 | no end is bound twice |
| PortBinder.GreedyReplayable | configs/example/read_config.py:321-331 | whatever the list, making the chosen connections in order gives every end its recorded index |
| PortBinder.HalfIffCovered | configs/example/read_config.py:333-336 | half the listed connections were made if and only if each was made in one direction or the other |
| PortBinder.EachOnce | configs/example/read_config.py:333-336 | when the count is right, exactly one direction of every connection was made |
| PortBinder.NextFree | configs/example/read_config.py:303-331 | a pass that has made everything before a connection finds its ends next free |
| PortBinder.GreedyCovers | configs/example/read_config.py:311-331 | the pass makes everything that a replayable order within its list makes |
| PortBinder.BindsIffSelection | configs/example/read_config.py:311-336 | the pass succeeds if and only if some choice of one direction each, in sorted order, replays |
| PortBinder.CrossedNeverBinds | configs/example/read_config.py:311-313 | two connections between the same ports with crossed indices are never bound, in whatever list |
| PortBinder.DelayedNotBound | configs/example/read_config.py:311-313 | a list of which some order replays and which the pass does not bind |
| PortBinder.ResetIndices | configs/example/read_config.py:295-301 | every port on the left of a connection starts at zero |
| PortBinder.BindPorts | configs/example/read_config.py:290-336 | success if and only if half the connections were made, and then they replay to the recorded indices and bind each connection once |
| PortChains.Blocked | configs/example/read_config.py:303-331 | a connection that is not next free where it is listed needs one that is not made yet |
| PortChains.LateChain | configs/example/read_config.py:311-331 | what is not made before some place is the end of a chain that is not through before it |
| PortChains.ChainInTime | configs/example/read_config.py:311-331 | a chain whose last connection is made is through by then |
| PortChains.PassMakesAllIff | configs/example/read_config.py:311-331 | a pass over any list makes every connection if and only if the recorded indices are unique and contiguous and every chain is through within the list |
| PortChains.BindsIffChainsInTime | configs/example/read_config.py:311-336 | the same for the sorted list and the final count |
| Protolib.Cut32Range | util/protolib.py:118-125 | the decoded number is congruent to the encoded one modulo 2^32, non-negative below 2^63 and negative from there on |
| Protolib.DecodeGroup | util/protolib.py:101-129 | every group of at most ten bytes decodes to its value cut to 32 bits and leaves the rest of the stream |
| Protolib.DecodeIff | util/protolib.py:101-129 | for every stream: a value, the end of the file or an error, by the continuation bits of the first ten bytes |
| Protolib.VarintLength | util/protolib.py:127-129 | ten bytes are enough exactly for numbers below 2^70 |
| Protolib.VarintRoundTripIff | util/protolib.py:101-158 | a number survives if and only if it fits 32 bits |
| Protolib.UnframeFrame | util/protolib.py:131-166 | one frame of any length: a message of 1 to 2^32 - 1 bytes comes back, an empty one gives none, of a longer one its length modulo 2^32 is read, and from 2^63 on everything or nothing |
| Protolib.FramesRoundTripIff | util/protolib.py:131-166 | for every list, writing and reading gives the list and consumes the whole stream if and only if each message has 1 to 2^32 - 1 bytes, or is the last and has 2^63 to 2^70 - 1 |
| Protolib.EmptyMessageStops | util/protolib.py:138-139 | an empty message ends reading, whatever follows, and that is left |
| Protolib.EncodeVarint | util/protolib.py:146-158 | the varint of the number is appended to the file |
| Protolib.DecodeVarint | util/protolib.py:101-129 | value, end of file or too many bytes, and only the bytes of the varint are consumed |
| Protolib.EncodeMessage | util/protolib.py:160-166 | the frame of the message is appended |
| Protolib.DecodeMessage | util/protolib.py:131-144 | a message is read if and only if there is a non-empty one, and what is left either way |
| Protolib.DecodeAll | util/decode_inst_dep_trace.py:156-157 | messages until there is none, and what is left then |
| InstDepTrace.DepsRoundTrip | util/encode_inst_dep_trace.py:182-195 | printed dependencies parse back, the empty list included |
| InstDepTrace.ParseFieldsIff | util/encode_inst_dep_trace.py:152-180 | the fields of a record parse back if and only if the record is faithful |
| InstDepTrace.LineRoundTripIff | util/encode_inst_dep_trace.py:150-195 | a printed line parses back to its record with defaults filled in if and only if loads and stores have address, size and flags, compute records none of them, and the type is valid |
| InstDepTrace.FieldPlaces | util/decode_inst_dep_trace.py:160-206 | where every value stands on a printed line, missing pc and weight as 0 and 1, and the two kinds of dependencies behind the colons |
| InstDepTrace.TraceRoundTripIff | util/encode_inst_dep_trace.py:147-198 | a printed trace converts back if and only if every record is faithful |
| InstDepTrace.PrintDeps | util/decode_inst_dep_trace.py:194-204 | every dependency with a comma before it |
| InstDepTrace.PrintOptional | util/decode_inst_dep_trace.py:181-188 | an optional field is one more field of the line, or none |
| InstDepTrace.PrintRecord | util/decode_inst_dep_trace.py:160-206 | the pieces that are written make up the line of the record |
| InstDepTrace.PrintTrace | util/decode_inst_dep_trace.py:151-210 | the text of the trace, and how many records have dependencies of either kind |
| InstDepTrace.ParseDeps | util/encode_inst_dep_trace.py:184-195 | the non-empty items as numbers, or an error if one is not a number |
| InstDepTrace.ConvertLine | util/encode_inst_dep_trace.py:150-195 | every outcome of parsing a line, errors included |
| InstDepTrace.ConvertTrace | util/encode_inst_dep_trace.py:147-198 | a text is converted line by line up to the first error |
| CheckpointAggregator.RenameInverse | util/checkpoint_aggregator.py:68-69 | with a number of known width the old name and the number can be read off the new name |
| CheckpointAggregator.NumberWidth | util/checkpoint_aggregator.py:59-69 | all checkpoint numbers have the same width and keep their value |
| CheckpointAggregator.NewNamesDiffer | util/checkpoint_aggregator.py:67-70 | CPU sections of different names or checkpoints get different names, never that of another kind of section |
| CheckpointAggregator.MergedNamesDistinct | util/checkpoint_aggregator.py:67-92 | the sections taken from all checkpoints have different names |
| CheckpointAggregator.AllNamesDistinct | util/checkpoint_aggregator.py:117-136 | in the whole merged configuration, with the two sections added at the end, no name comes twice |
| CheckpointAggregator.HasCpuIff | util/checkpoint_aggregator.py:68-68 | the pattern that tells CPU sections |
| CheckpointAggregator.FdMapIff | util/checkpoint_aggregator.py:79-79 | the pattern that tells the sections of file descriptors |
| CheckpointAggregator.CpuItemsKept | util/checkpoint_aggregator.py:72-80 | every item of a CPU section keeps its place, key and value but for moved addresses, and the process id of a descriptor section, which is the number of the checkpoint |
| CheckpointAggregator.MergedIff | util/checkpoint_aggregator.py:67-92 | but for the store and the two sections added, the merged configuration has exactly what the sections of the checkpoints become |
| CheckpointAggregator.AlignedIffFull | util/checkpoint_aggregator.py:97-112 | an image starts where its addresses are moved to if and only if all images before it have all their pages |
| CheckpointAggregator.RelocatedByte | util/checkpoint_aggregator.py:97-112 | behind full images every byte is found at its relocated address |
| CheckpointAggregator.IntervalsDisjoint | util/checkpoint_aggregator.py:98-99 | the address intervals of different checkpoints do not overlap |
| CheckpointAggregator.AddressesKeepMeaning | util/checkpoint_aggregator.py:72-112 | a physical address of a CPU section is in the section of the new name, and the merged image has the same byte there |
| CheckpointAggregator.CopyPages | util/checkpoint_aggregator.py:105-112 | as many pages as the checkpoint has, or what there is of them |
| CheckpointAggregator.TakeSections | util/checkpoint_aggregator.py:67-92 | what becomes of the sections of one checkpoint, process ids included |
| CheckpointAggregator.MergeAll | util/checkpoint_aggregator.py:58-115 | the sections taken, the images one behind the other, the pages used and the latest tick |
| CheckpointAggregator.Pad | util/checkpoint_aggregator.py:121-129 | whole pages of the character 0 are added until the memory size is reached and no longer |
| CheckpointAggregator.Aggregate | util/checkpoint_aggregator.py:44-145 | the merged configuration and image: the store section is that of the last checkpoint with the range size recorded, which is the size of the image if and only if every image was full; pages, number of checkpoints and latest tick are recorded; it fails if and only if no memory section was taken |
| CheckpointScript.Simulator.Simulate | src/sim/simulate.cc:77-114 | a reply of the simulator: at the limit, or earlier with another cause |
| CheckpointScript.Simulator.Drain | src/python/m5/simulate.py:178-211 | draining takes the ticks that the state needs |
| CheckpointScript.Resume | configs/common/Simulation.py:265-266 | checkpoints of the guest are skipped; the limit is reached if and only if it is the next other reply, otherwise how far the simulator gets; a target in the past is rejected |
| CheckpointScript.RunToFirst | configs/common/Simulation.py:242-246 | the first checkpoint is reached if and only if it is not in the past and the limit is the next reply that is no guest checkpoint |
| CheckpointScript.RunPeriod | configs/common/Simulation.py:262-266 | one period, and what of it the stale exit cause and the exit event tell |
| CheckpointScript.NextCheckpoint | configs/common/Simulation.py:262-269 | one turn of the loop: all goes on as scheduled, or the run has ended and all that are written have been |
| CheckpointScript.ScriptCheckpoints | configs/common/Simulation.py:236-271 | how many checkpoints are written, each when due but for earlier draining, at most the maximum (or one), later ones only up to the last tick; where the run ends and with which cause, in every case; the last tick is passed by draining time only |
| CheckpointScript.WhereItEnds | configs/common/Simulation.py:255-271 | case by case: enough checkpoints, on to the last tick as the next reply says, or the next checkpoint is not reached |
| CheckpointScript.GoneAddsUp | configs/common/Simulation.py:244-246 | the ticks of the guest's stops add up on the way to a target |
| CheckpointScript.ExactSchedule | configs/common/Options.py:270-271 | without draining time checkpoint k is written exactly k periods after the first |
| CheckpointScript.UninterruptedIsPromised | configs/common/Simulation.py:715-718 | as long as the guest asks for no checkpoint, all promised ones are written |
| CheckpointScript.InterruptionEndsSchedule | configs/common/Simulation.py:262-269 | the stale exit cause: the checkpoint after the first interruption is the last one, or not even written if it is missed |
| CheckpointScript.AllWrittenIff | configs/common/Simulation.py:255-269 | never more than promised, and all of them if and only if the guest interrupts none but the last, and that one in time |
| CheckpointScript.ScheduleKeptIff | configs/common/Simulation.py:715-718 | the same for the whole schedule, of which nothing is written or promised without the first checkpoint |
| CheckpointScript.GuestEndsSchedule | configs/common/Options.py:268-269 | three checkpoints are promised and two are written |
| CpuSwitching.Cpus.Check | src/python/m5/simulate.py:261-288 | old CPUs are active and new ones idle, all support handover, and the new ones need the same memory mode |
| CpuSwitching.Cpus.Switch | src/python/m5/simulate.py:261-314 | CPUs are switched if and only if the pairs fit, and otherwise none is |
| CpuSwitching.SwitchBackIff | configs/common/Simulation.py:444-449 | after a switch the swapped list can be switched if and only if the CPUs to go back to need the same memory mode, which then restores the active CPUs |
| CpuSwitching.Swap | configs/common/Simulation.py:446-449 | all pairs are swapped |
| CpuSwitching.Turn | configs/common/Simulation.py:444-449 | switches alternate between the two groups; only the first or the second can fail |
| CpuSwitching.RepeatSwitch | configs/common/Simulation.py:435-453 | switches come every period, one for each reply that the limit was reached, always from the active CPUs to the idle ones and back; where the run ends, with which cause, and when it raises, in every case |
| CpuSwitching.WhereItEnds | configs/common/Simulation.py:435-453 | case by case: the last call up to the last tick, a call that stops early, or a switch that raises |
| CpuSwitching.EndsByMaxtick | configs/common/Simulation.py:451-453 | with a period left to begin with, whatever the simulator does, only draining for the last switch takes a run past the last tick |
| CpuSwitching.NeverPastIff | configs/common/Simulation.py:435-453 | that holds for all simulators if and only if a period is left to begin with |
| CpuSwitching.GuardTooWeak | configs/common/Simulation.py:736-738 | the caller's guard holds and the run ends past the last tick |
| MemTestTree.NumTesters | configs/example/memtest.py:118-129 | the testers of each level times the product of the fan-outs below it |
| MemTestTree.LevelsAreTree | configs/example/memtest.py:118-129 | counting level by level is counting along the tree |
| MemTestTree.Prototypes | configs/example/memtest.py:192-216 | one prototype for each level, each scaled from the one inside it, the innermost being the first-level cache; sizes scale with products of fan-outs, latencies with powers of ten, inclusion and clean write-backs alternate |
| MemTestTree.System.MakeCacheLevel | configs/example/memtest.py:238-299 | a sub-tree adds one subsystem on its level and the product of the fan-outs on each level above, and the testers of its tree; no list is indexed out of range |
| MemTestTree.Check | configs/example/memtest.py:154-179 | options are accepted if and only if they fit together and the testers fit a block, and each complaint is made exactly when it is the first that applies |
| MemTestTree.BuildTree | configs/example/memtest.py:154-302 | exactly the testers counted in advance, the product of fan-outs on each level, the caches and crossbars that its level asks for in each subsystem, and no name twice |
| MemTestTree.NamesDiffer | configs/example/memtest.py:247-247 | the name of a subsystem tells its level and its number |
| CopyrightYears.DateStr | util/find_copyrights.py:175-199 | ascending ranges that cover exactly the years with a year missing between any two, joined by commas; it fails if and only if there are no years |
| CopyrightYears.RunsEndAtGaps | util/find_copyrights.py:188-197 | a printed range is a whole run: the years around it are missing |
| CopyrightYears.ProcessDates | util/find_copyrights.py:98-116 | the union of what the entries read as |
| CopyrightYears.EntryNumber | util/find_copyrights.py:109-114 | a printed year, of any number of digits or negative, reads as itself |
| CopyrightYears.EntryRange | util/find_copyrights.py:98-108 | a printed range reads as itself if both ends have four digits, and otherwise loses its last year |
| CopyrightYears.RoundTripIff | util/find_copyrights.py:98-199 | printed years read back if and only if neighbouring years have four digits |
| CopyrightYears.PrintAndRead | util/find_copyrights.py:98-199 | the same for printing and then reading |

## Left out

- MigrationRegistry.Upgraders.Register: requires that the tag is new, which the header of the script demands ("a tag can only be used once"); a repeated tag would replace the object filed before.
- MigrationRegistry.SecondRunNothingToDoIff: tags pass through the value of the option; the syntax of the file around it is not modelled, where the parser interpolates a per cent sign and takes a semicolon behind a space for a comment.
- MigrationRegistry.Upgraders.LoadAll: requires that tags differ, as registering does; the scripts' attributes are given, and executing the files and checking their types is not modelled.
- The contents of a checkpoint that upgraders rewrite, and the backup copy of the file.
- PipeTimeline.PrintInst: requires a positive width and cycle time, since a zero would divide by zero; colours, the header line and the text behind the timeline are left out.
- PipeSorter.PrintQueue.ProcessTrace: reads instructions, not lines; parsing of trace lines, and the early stop of line 134, whose call lacks an argument, are not modelled.
- RoutingTables.Solve: link latencies, intermediate switch counts and bandwidths do not influence routing and are left out.
- RoutingTables.RouteOnce: one destination to a message; multicast splits and virtual channel allocation are not modelled.
- RoutingTables.BuiltIsMesh: requires external links whose controllers are numbered without gaps, as the switch numbers of the topology do; `RoutingTables.ControllersNumbered` gives that for controllers of the known kinds.
- ClusterTopology.MakeTopology: clusters form a finite tree; a cluster object that is added twice is not modelled.
- PortBinder.BindPorts: the pattern that parses a port name, and the final assignment of ports to objects, are not modelled.
- Protolib.EncodeMessage: serialisation of message fields is opaque bytes.
- InstDepTrace.LineRoundTripIff: numbers are within the widths that the record declares.
- CheckpointAggregator.Aggregate: requires at least one checkpoint, as the program demands of its arguments; compression of the image is left out.
- CheckpointScript.ScriptCheckpoints: the branch that takes a checkpoint at an instruction, and 64-bit wrap-around of ticks, are not modelled.
- CpuSwitching.Cpus.Switch: changing the memory mode of the system, and flushing caches for it, is not modelled.
- MemTestTree.BuildTree: ports, crossbar wiring, tester intervals and progress limits, and the random tree are left out.
- CopyrightYears.DateStr: the set is given as the list of its elements in any order.
- CopyrightYears.ProcessDates: finding copyright blocks and owners in a file is left out.
- The C++ simulator core, memory systems, CPU models and the rest of the configuration scripts.
