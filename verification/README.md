# DGate's admin state, verified

DGate keeps its configuration as a log of change commands that is replayed into an in-memory graph of
resources. The graph stands on data structures of the repository's own: an AVL tree, vertices with named
edges, a heap, a linked list. Beside it run a scheduler and an expiring cache, and below it two key-value
stores. This project models those parts in Dafny and proves what they promise.

Code that works by changing things in place is modelled by classes and loops whose contracts tie the new
state to the old one through functions on values; what the repository promises is then proved about the
functions, for all inputs and all runs.

| files | subject |
|---|---|
| `AvlModel`, `AvlMap`, `AvlBalance`, `AvlPanics`, `AvlTree` (with `Order`, `SortedPairs`, `Seqs`) | the AVL tree: values, refinement of a finite map, balance over every run, where it dereferences nil, and the nodes on the heap |
| `Heap` | the binary heap of both types |
| `Linker`, `Resources`, `Acceptance`, `Wiring`, `RouteWiring`, `RouteLinking`, `RouteMemory`, `DomainOrder`, `Counts`, `ResourceManager`, `Keys` | the resource graph: admin state as a value, how vertices must be wired for it, what routes remember, and the manager that rewires them |
| `ChangeLogs`, `Compaction`, `CompactionLoop`, `CompactionReplay`, `CompactionLimits`, `CompactionExact`, `CompactionEnd`, `CompactionWitnesses` | the change log, its replay and its compaction, exactly when compaction preserves the replay, and logs it breaks |
| `Config`, `ConfigLoad`, `ConfigStart` | validation of the configuration file and its load at start-up |
| `CacheModel`, `Cache` | a cache bucket with its two lazy queues against a plain expiring map |
| `SchedulerModel`, `Scheduler` | timed tasks: what a tick runs, when and how often |
| `MergeSort`, `ListSort` | the two in-place sorts of a linked list |
| `Storage` | reading a page of the keys with a prefix, in both stores |

Conventions. A panic of the code is `None`, or the negation of a precondition. Resources are identified by
kind, name and namespace; `Keys` says when the concatenated keys of the code name the same thing. Times are
whole numbers: nanoseconds in the cache, with millisecond queue keys, and microseconds in the scheduler,
with intervals in nanoseconds. Clock readings never go backwards.

## What the proofs found

- Inserting into a clone of an AVL tree can dereference nil: a clone's stored heights are all zero, so a later
  insertion can see an imbalance that is not there and rotate around a missing child
  (`AvlPanics.CloneCanPanic`, a clone of seven keys and two insertions). `AvlPanics.InsertPanicsExactly` gives
  the exact condition; finding, walking and deleting stay safe.
- Compaction can change what a log restores, in three ways. A delete can cancel an add that had itself overwritten
  a live resource, which then comes back (`CompactionWitnesses.DeletedComesBack`). Merging two updates of a route
  can keep a link that the first of them dropped, so that a later delete is refused although no delete cancelled
  anything (`CompactionWitnesses.SurvivorsCanBeRefused`). And a script's items are filed under its module's
  namespace whatever namespace they name, so that two resources can have one key and an entry of one be dropped
  for the other's
  (`CompactionWitnesses.MisfiledIsLost`; `ChangeLogs.FiledUnderOwnNameIff` says which entries are filed under
  their own name). `CompactionExact.ReplayPreservedIff` gives, for every accepted log, the exact condition for the
  compacted log to be accepted and to end in the very same state at every point of it.
- The other results on whole replays suppose that keys and resources correspond. `CompactionReplay` supposes that
  no two entries have one key but different resources; `CompactionExact.NamedServicesIff` and the results of
  `CompactionEnd` on replays that each resource has one key of its own, by whatever one-to-one filing. Under that:
  if routes are always added with a service, only the deletes matter (`CompactionExact.NamedServicesIff`); at the
  end of a log the live resources are the same exactly when every last command that is a delete is safe, provided
  the survivors are accepted (`CompactionEnd.AcceptedEndsAlikeIff`), and they are if the log deletes no namespace,
  service or module (`CompactionEnd.OwnersKeptEndsAlikeIff`) or if overwrites are adjacent
  (`CompactionReplay.CompactionPreservesReplay`). The one call of compaction is switched off in the code
  (`internal/proxy/change_log.go:378-379`).
- A validated configuration can still fail to load: names joined by a dash can collide across namespaces.
  `ConfigLoad.ValidatedLoadsIff` names the namespaces for which it cannot happen, and `ConfigLoad.LoadsIffResolved`
  the condition for a single configuration, loaded into any state.
- `Pop` of a node with two children returns its successor's value (`AvlMap.PopReturns`).
- `NamespaceCountEquals(n)` and `DomainCountEquals(n)` answer whether there are at least n, not exactly n, for n
  above zero: they stop counting down too early (`Counts.CountEquals`). So a request is sent to whichever
  namespace is at the root of the tree when there are several and no domain
  (`ResourceManager.Manager.NoDomainButNamespace`).
- `compactChangeLogs` reports the length of the log as the number removed, which is right only when nothing is
  left (`CompactionLoop.CompactChangeLogs`); a log that does not end in a delete always leaves something
  (`CompactionLoop.SomethingSurvives`).
- The two stores do not always return the same page (`Storage.SamePage` says exactly when). With a negative limit
  the in-memory store gives no pairs and the file store all of them; the change log is read with the limit -1
  (`internal/proxy/proxystore/proxy_store.go:44`). At the empty prefix the file store runs past the last pair,
  since the nil key there has that prefix: it pads its page with empty rows (`Storage.TwoPairsAreFiveRows`), and
  with a negative limit it never ends.
- A deletion that fails in the middle leaves the in-memory store's log partly cut, since its transactions do not
  roll back (`CompactionLoop.CompactChangeLogs`), and such a log may not replay (`CompactionLoop.HalfCutIsRefused`).
- An item deleted from a cache bucket before it expires leaves its queue pair behind, and a sweep takes a later
  item under the same key by it (`Cache.StalePairTakesNewItem`). Evictions aside, such pairs are the only way in which
  a bucket departs from a plain expiring map: a finished sweep leaves a right bucket right if and only if no pair
  of an earlier item under a key is due while the present item is not (`CacheModel.SweepRightIff`, at millisecond
  resolution), some sweep to come finds one exactly when a pair is outlived (`CacheModel.ThreatensIff`), and setting
  a key leaves a pair outlived exactly when the new expiration passes one left under it (`Cache.Bucket.Set`).
- Unlinking an edge hands back what `Pop` returns, which can be the next vertex and not the one unlinked
  (`Linker.Link.UnlinkOneMany`); no caller looks.
- Removing a service panics rather than being refused when two or more routes are linked to it
  (`ResourceManager.Manager.RemoveService`).
- A repeating task with an interval under a microsecond, possible only if the scheduler's own interval is that
  short, is put back at the same time and its tick never ends (`SchedulerModel.StandsStillIff`).
- A route reads every module it has named since it was added, whether or not it still names it and whether or not
  the module is still there (`ResourceManager.Manager.GetRoute`, `ResourceManager.ReadsRemovedModule`). A read is
  exact if and only if every module named since then is still named (`RouteMemory.ReadIsExactIff`).
- Scheduling over an existing task stops it before the new options are checked, so refused options lose the old
  task (`Scheduler.Scheduler.ScheduleTask`); and when the old task's job comes up, it takes the new task of the
  name off the register (`Scheduler.Scheduler.Tick`).

## Model

| member | source | states |
|---|---|---|
| AvlBalance.InsertKeepsAvl | pkg/util/tree/avl/avl.go:163-208 | inserting into a balanced tree never panics and leaves exact stored heights and balance within one, although a leaf's balance factor reads 1 |
| AvlBalance.DeleteKeepsAvl | pkg/util/tree/avl/avl.go:210-292 | so does deleting |
| AvlBalance.EveryRunIsAnAvlMap | pkg/util/tree/avl/avl.go:96-292 | after any run of inserts and deletes on an empty tree: no panic, search order, exact heights, balance, and the contents are the map the run describes |
| AvlBalance.SizeIsFibonacci | pkg/util/tree/avl/avl.go:127-153 | a tree of height h has at least Fib(h+2)-1 nodes |
| AvlBalance.DeleteStep | pkg/util/tree/avl/avl.go:210-292 | one deletion on a balanced tree, or on any search tree where it does not panic, removes exactly the key and reports whether it was there |
| AvlMap.InsertItems | pkg/util/tree/avl/avl.go:163-208 | whatever the stored heights, an insertion that does not panic changes the ascending listing at that key only, and returns the old value |
| AvlMap.InsertRefinesMap | pkg/util/tree/avl/avl.go:163-208 | that is the map's update |
| AvlMap.DeleteItems | pkg/util/tree/avl/avl.go:210-292 | a deletion takes exactly that key out of the ascending listing |
| AvlMap.DeleteRefinesMap | pkg/util/tree/avl/avl.go:210-292 | that is the map's removal, and the flag says whether the key was there |
| AvlMap.NotFoundLeavesTree | pkg/util/tree/avl/avl.go:210-225 | a deletion that finds nothing leaves the tree as it was |
| AvlMap.PopReturns | pkg/util/tree/avl/avl.go:225-256 | the value popped: the node's own, but its in-order successor's for a node with two children |
| AvlMap.FindIsLookup | pkg/util/tree/avl/avl.go:321-340 | find answers as the map does, on any search tree |
| AvlMap.SizeIsCardinality | pkg/util/tree/avl/avl.go:18-23 | the node count is the number of keys |
| AvlMap.CloneItems | pkg/util/tree/avl/avl.go:397-407 | a clone lists the same pairs |
| AvlPanics.CloneHasLowLeaves | pkg/util/tree/avl/avl.go:397-407 | a clone's stored heights never overstate a leaf |
| AvlPanics.DeleteNeverPanics | pkg/util/tree/avl/avl.go:210-292 | on such trees, clones among them, no deletion panics, and they stay such trees |
| AvlPanics.InsertKeepsLowLeaves | pkg/util/tree/avl/avl.go:163-208 | an insertion that does not panic keeps them such trees |
| AvlPanics.InsertPanicsExactly | pkg/util/tree/avl/avl.go:163-208 | on any search tree with heights that are not negative: an insertion panics if and only if the subtree it passes by outweighs the one it enters by two and lacks its inner child |
| AvlPanics.CloneTakesOneInsertion | pkg/util/tree/avl/avl.go:381-407 | the first insertion into a clone never panics |
| AvlPanics.CloneCanPanic | pkg/util/tree/avl/avl.go:381-407 | a second one can: a balanced tree whose clone takes one insertion and panics on the next |
| AvlTree.RotateRight | pkg/util/tree/avl/avl.go:96-110 | the pointers rewired in place are the rotation of the tree they stood for |
| AvlTree.RotateLeft | pkg/util/tree/avl/avl.go:112-125 | likewise |
| AvlTree.FixInsert | pkg/util/tree/avl/avl.go:183-208 | rebalancing after an insertion, in place, is the model's |
| AvlTree.Replace | pkg/util/tree/avl/avl.go:163-208 | insertion in place gives the model's tree and the value replaced |
| AvlTree.FixDelete | pkg/util/tree/avl/avl.go:264-291 | rebalancing after a deletion, in place, is the model's |
| AvlTree.DeleteNode | pkg/util/tree/avl/avl.go:210-292 | deletion in place gives the model's tree, value and flag |
| AvlTree.FindNode | pkg/util/tree/avl/avl.go:327-340 | the search down the pointers finds what the tree holds |
| AvlTree.EachNode | pkg/util/tree/avl/avl.go:85-93 | the walk visits the ascending listing until the visitor stops it |
| AvlTree.CloneNode | pkg/util/tree/avl/avl.go:397-407 | new nodes only, the same pairs, heights zero |
| AvlTree.Tree.Insert | pkg/util/tree/avl/avl.go:156-161 | the contents, as a map, are updated at the key; the old value is returned; balance is kept |
| AvlTree.Tree.Delete | pkg/util/tree/avl/avl.go:302-309 | the key is gone, the rest stays, the flag is right, balance is kept |
| AvlTree.Tree.Pop | pkg/util/tree/avl/avl.go:311-319 | likewise |
| AvlTree.Tree.Find | pkg/util/tree/avl/avl.go:321-325 | the map's lookup |
| AvlTree.Tree.Each | pkg/util/tree/avl/avl.go:77-83 | the visitor sees the contents in strictly ascending key order |
| AvlTree.Tree.RootKeyValue | pkg/util/tree/avl/avl.go:342-352 | some pair of the contents, none exactly when empty |
| AvlTree.Tree.Length | pkg/util/tree/avl/avl.go:354-362 | the number of keys |
| AvlTree.Tree.Clone | pkg/util/tree/avl/avl.go:381-389 | the same map in nodes that share nothing with the original |
| Heap.RootIsExtreme | pkg/util/heap/heap.go:34-120 | in a heap of either type no key is beyond the root's |
| Heap.RaiseHole | pkg/util/heap/heap.go:105-120 | one step of sifting up leaves order everywhere but above the moved pair |
| Heap.LowerHole | pkg/util/heap/heap.go:74-103 | one step of sifting down leaves order everywhere but below the moved pair |
| Heap.Heap.Push | pkg/util/heap/heap.go:34-40 | heap order kept, exactly the new pair added |
| Heap.Heap.Pop | pkg/util/heap/heap.go:42-56 | heap order kept, exactly one pair removed, of least key in a min-heap and of greatest in a max-heap; nothing only when empty |
| Heap.Heap.Peak | pkg/util/heap/heap.go:58-68 | the pair Pop would take |
| Heap.Heap.HeapifyUp | pkg/util/heap/heap.go:105-120 | repairs a heap whose last pair may be out of place, keeping the pairs |
| Heap.Heap.HeapifyDown | pkg/util/heap/heap.go:74-103 | repairs a heap whose root may be out of place, keeping the pairs |
| Heap.Heap.Drain | pkg/util/heap/heap.go:42-56 | popping until empty gives all the pairs in key order, ascending from a min-heap and descending from a max-heap |
| Keys.InjectiveIff | pkg/resources/resource_manager.go:162 | joined keys name one thing only, over a set of namespaces, exactly when none ends in the separator and another |
| Keys.NoCollision | internal/config/resources.go:35 | two pairs with the same joined key are the same pair, if neither namespace is a separator suffix of the other |
| Keys.InjectiveWithoutSeparator | pkg/resources/resource_manager.go:162 | in particular if the namespaces do not contain the separator |
| Resources.StepKeepsConsistent | pkg/resources/resource_manager.go:111-880 | every accepted call keeps every reference live and every route linked to what its spec names |
| Resources.RunKeepsConsistent | pkg/resources/resource_manager.go:111-880 | so does every run of calls, accepted or refused |
| Resources.NoDanglingReferences | pkg/resources/resource_manager.go:128-445 | after any run from the empty manager a live route's namespace, service and modules are live, and so is the namespace of everything but secrets |
| Resources.NoMissingModule | pkg/resources/resource_manager.go:266-272 | a route is refused for a module exactly when one it names is not live |
| Acceptance.AddOwnedMeans | pkg/resources/resource_manager.go:395-416 | services, modules, domains, collections and secrets are added exactly when their namespace is live and, for modules and secrets, the payload decodes; the item is then live as given |
| Acceptance.AddRouteMeans | pkg/resources/resource_manager.go:256-287 | a route is accepted exactly when its namespace, its service if it names one, and all its modules are live; else the first of them missing is reported |
| Acceptance.RouteLedTo | pkg/resources/resource_manager.go:231-254 | an accepted route is linked to the service and the modules it names, and if it names no service, to what it was linked to before besides |
| Acceptance.RemoveNamespaceMeans | pkg/resources/resource_manager.go:128-153 | a namespace can be removed exactly when it is live and nothing but secrets is in it; else the first kind still there, in the code's order, is reported |
| Acceptance.RemoveServiceMeans | pkg/resources/resource_manager.go:426-445 | a service can be removed exactly when it and its namespace are live and no route is linked to it; with several the call panics |
| Acceptance.RemoveModuleMeans | pkg/resources/resource_manager.go:673-692 | a module can be removed exactly when it and its namespace are live and no route is linked to it |
| Acceptance.RemoveFreeMeans | pkg/resources/resource_manager.go:564-581 | routes, domains, collections and secrets can be removed exactly when they and their namespace are live |
| Acceptance.NamespaceIsLive | pkg/resources/resource_manager.go:128-153 | in a consistent state only a secret can have lost its namespace |
| Linker.Link.Get | pkg/util/linker/linker.go:76-94 | the only neighbour under a name, none exactly when there is no edge or no neighbour |
| Linker.Link.LinkOneMany | pkg/util/linker/linker.go:115-124 | only the neighbour under that name and key changes |
| Linker.Link.UnlinkOneMany | pkg/util/linker/linker.go:126-134 | only that neighbour goes; the vertex handed back, if it was there, is its own or the one with the next key, as Pop gives it |
| Linker.Link.LinkOneOne | pkg/util/linker/linker.go:152-164 | the edge holds this neighbour alone |
| Linker.Link.UnlinkOneOneByKey | pkg/util/linker/linker.go:166-174 | likewise; with no other neighbour the vertex handed back is its own |
| Linker.Link.UnlinkOneOne | pkg/util/linker/linker.go:176-187 | the edge is empty afterwards; some neighbour it had is handed back, none exactly if it was empty |
| Wiring.EdgesMirror | pkg/resources/resource_manager.go:305-355 | in every reachable state a route leads to a service exactly when the service lists the route, a module that lists a route is led to by it, and one-to-one edges hold at most one vertex |
| Wiring.NamespaceListsExactly | pkg/resources/resource_manager.go:128-153 | a namespace's edges list exactly the live resources of each kind in it, secrets aside |
| Wiring.ListedRoutesAreLive | pkg/resources/resource_manager.go:426-445 | every route that a service or module lists is live and is that vertex |
| Wiring.AddNamespaceWired | pkg/resources/resource_manager.go:111-126 | a new namespace with empty lists leaves everything wired |
| Wiring.RemoveNamespaceWired | pkg/resources/resource_manager.go:128-153 | so does removing one that nothing but secrets lives in |
| Wiring.AddOwnedWired | pkg/resources/resource_manager.go:402-415 | so does a new resource linked both ways with its namespace |
| Wiring.RemoveOwnedWired | pkg/resources/resource_manager.go:426-445 | so does taking one out that no route is linked to |
| Wiring.ListedIsPopulated | pkg/resources/resource_manager.go:131-145 | a namespace's list of a kind is empty exactly when nothing of the kind lives in it |
| Wiring.InUseIsListed | pkg/resources/resource_manager.go:673-679 | a service or module lists a route exactly when some live route is linked to it |
| Wiring.SharedIsListed | pkg/resources/resource_manager.go:426-432 | a service lists more than one route, so that looking up the only one panics, exactly when two live routes are linked to it |
| RouteWiring.UnlinkedWired | pkg/resources/resource_manager.go:305-319 | unlinking a route leaves everything wired for a state in which the route is linked to nothing |
| RouteWiring.RelinkedWired | pkg/resources/resource_manager.go:339-353 | linking it again leaves everything wired for the links the new spec gives |
| RouteWiring.LinkedAccepted | pkg/resources/resource_manager.go:231-254 | an accepted route, once linked, leaves the graph as the new state requires |
| RouteWiring.RouteGone | pkg/resources/resource_manager.go:290-303 | so does an unlinked route that leaves the tree |
| RouteLinking.UnlinkRoute | pkg/resources/resource_manager.go:305-319 | the loop over a route's modules, stale ones included, changes exactly the edges the wiring says, and Get never sees two services |
| RouteLinking.LinkRoute | pkg/resources/resource_manager.go:339-353 | linking changes exactly the edges of the route, its namespace, its service and its modules |
| ResourceManager.Manager.AddNamespace | pkg/resources/resource_manager.go:111-126 | always accepted; the namespace is live as given, nothing else changes, every vertex stays wired |
| ResourceManager.Manager.RemoveNamespace | pkg/resources/resource_manager.go:128-153 | accepted exactly when the namespace is live and nothing but secrets is in it, refused else for the first kind still linked; then it alone is gone |
| ResourceManager.Manager.AddOwned | pkg/resources/resource_manager.go:395-416 | services, modules, domains, collections and secrets: accepted exactly when the namespace is live and modules and secrets decode, then live as given and wired both ways |
| ResourceManager.Manager.RemoveService | pkg/resources/resource_manager.go:426-445 | accepted exactly when it and its namespace are live and no route is linked to it; a panic that changes nothing while several are; then it alone is gone |
| ResourceManager.Manager.RemoveModule | pkg/resources/resource_manager.go:673-692 | accepted exactly when it and its namespace are live and no route is linked to it; then it alone is gone |
| ResourceManager.Manager.RemoveOwned | pkg/resources/resource_manager.go:772-790 | domains, collections and secrets: accepted exactly when they and their namespace are live; then they alone are gone |
| ResourceManager.Manager.RouteError | pkg/resources/resource_manager.go:256-287 | a route is refused for its namespace, its service or its first missing module, and for nothing else |
| ResourceManager.Manager.AddRoute | pkg/resources/resource_manager.go:231-254 | accepted exactly when all it names is live, and then led to what it names; a route that names a service is unlinked first, one that names none keeps its links |
| ResourceManager.Manager.GetRoute | pkg/resources/resource_manager.go:161-187 | a route is read with the service and every module its spec names, each as last accepted; the modules read are exactly those it has named since it was added |
| RouteMemory.MemoryIsNamedSince | pkg/resources/resource_manager.go:305-355 | what a run of calls leaves remembered for a route is what some accepted call has named since the route was last removed |
| RouteMemory.ReadIsExactIff | pkg/resources/resource_manager.go:161-187 | a live route remembers, and so reads, just the modules its spec names if and only if every module named since it was added is still named |
| RouteMemory.UnlinkedRemembers | pkg/resources/resource_manager.go:305-319 | unlinking a route leaves its own edges to modules in place |
| RouteMemory.StaleModuleIsRemembered | pkg/resources/resource_manager.go:305-319 | a run of six accepted calls, the last removing the module, after which the route still remembers it |
| ResourceManager.ReadsRemovedModule | pkg/resources/resource_manager.go:161-187 | the manager after that run: the route is read with a module it does not name and that is not live |
| ResourceManager.Manager.RemoveRoute | pkg/resources/resource_manager.go:290-303 | accepted exactly when it and its namespace are live; then it alone is gone, and nothing lists it |
| ResourceManager.Manager.Call | pkg/resources/resource_manager.go:111-880 | any call accepts, refuses and leaves behind what the state function says, keeps the graph wired, the cached domain list right, and remembers what routes have named |
| ResourceManager.Manager.CallAll | pkg/resources/resource_manager.go:111-880 | so does any run of calls, from any reached state |
| ResourceManager.Manager.AddDomain | pkg/resources/resource_manager.go:525-546 | accepted exactly when its namespace is live; the cached priority list is dropped, so that it is right whenever it is there |
| ResourceManager.Manager.RemoveDomain | pkg/resources/resource_manager.go:564-581 | accepted exactly when it and its namespace are live; the cached list is dropped even if refused |
| ResourceManager.Manager.GetDomainsByPriority | pkg/resources/resource_manager.go:485-508 | exactly the live domains, by priority from the greatest down, among equals by name from the greatest down |
| ResourceManager.Manager.FindNamespaceByRequest | internal/proxy/proxy_state.go:568-603 | when some domain matches the host, the namespace of a matching one of greatest priority, the greatest name among equals; when there are domains and none matches, the default namespace if it has no domain |
| DomainOrder.ListMeans | pkg/resources/resource_manager.go:493-508 | the order of the list in priorities and names |
| DomainOrder.AnswerMeans | internal/proxy/proxy_state.go:577-603 | the answer to a request in priorities and names |
| Order.StringLtMeans | pkg/resources/resource_manager.go:499-505 | names compare at the first place at which they differ, a proper prefix first |
| ResourceManager.Manager.NoDomainButNamespace | internal/proxy/proxy_state.go:574-577 | the shortcut is taken with no domain and any positive number of namespaces |
| ResourceManager.Manager.CountEquals | pkg/resources/resource_manager.go:75-84 | the countdown over the resources of a kind answers as Counts says, for every target |
| Counts.CountsDown | pkg/resources/resource_manager.go:79-83 | where the countdown of the visitor ends on any listing |
| Counts.CountEquals | pkg/resources/resource_manager.go:471-482 | on the ordered walk, for every target: true exactly when there are none, for target zero, or at least as many as asked for; so the answer is right exactly when the target is zero or no less than the number there is |
| DomainOrder.FirstMatch | internal/proxy/proxy_state.go:580-596 | the first match in list order is a best match; a failing pattern passes its domain over |
| DomainOrder.FirstMatchIsBest | internal/proxy/proxy_state.go:582-595 | nothing that matches comes before it |
| DomainOrder.MatchAnyPattern | internal/pattern/pattern.go:38-49 | a match exactly when some pattern matches and all before it do not match; a failure likewise; no match exactly when no pattern matches or fails |
| DomainOrder.MatchAnyMeans | internal/pattern/pattern.go:38-49 | the same of the search as a function |
| ChangeLogs.FiledUnderOwnNameIff | pkg/modules/dgate/state/state_mod.go:148 | an entry made from an item is filed under the name of what it is about exactly when the namespace given is the item's own or the item names none; so it is for the admin handlers, and for scripts only if their items name no other namespace |
| ChangeLogs.Restore | internal/proxy/change_log.go:351-369 | the loop goes from state to state, entry by entry, and stops with the error of the first refused one |
| ChangeLogs.AppliedMeans | internal/proxy/change_log.go:141-260 | one entry: documents and noops do nothing; the others add or remove the resource their item names, in the entry's namespace if the item names none |
| ChangeLogs.ReplayMeans | internal/proxy/change_log.go:351-369 | a replay that succeeds is a path of accepted entries, one that fails ends at its first refused entry |
| ChangeLogs.ReplayKeepsConsistent | internal/proxy/change_log.go:339-369 | replay ends in a state without dangling references |
| ChangeLogs.ReplayPrefix | internal/proxy/change_log.go:351-369 | every prefix of an accepted log is accepted |
| Compaction.RewriteKeepsSurvivors | internal/proxy/change_log.go:421-448 | rewriting the first pair a rule applies to does not change the outcome of a single left-to-right pass |
| Compaction.NormalSurvives | internal/proxy/change_log.go:412-457 | a log without such a pair is left alone |
| Compaction.CompactionIsIdempotent | internal/proxy/change_log.go:412-457 | no rule applies to the survivors, and compacting them removes nothing |
| Compaction.SurvivorsAreSubsequence | internal/proxy/change_log.go:412-457 | the survivors are the log with some entries left out, in the same order, whatever the IDs |
| CompactionLoop.Scan | internal/proxy/change_log.go:418-451 | one scan makes at most one rewrite, that of the first noop with an entry after it or add directly followed by a command of the same resource, name and namespace: an add and a delete go both, else the first goes; none exactly at a log without such a place |
| CompactionLoop.CompactChangeLogsRemoveList | internal/proxy/change_log.go:412-457 | the restarting loop ends within n(n+1)/2 iterations with the survivors of the single pass, in which no noop has an entry after it and no add is directly followed by a command of the same resource, name and namespace; with distinct IDs they are the log without the remove list, and both together are a permutation of it |
| CompactionLoop.NormalMeans | internal/proxy/change_log.go:421-448 | what it is, in the fields of the entries, that no rule applies |
| CompactionLoop.CompactChangeLogs | internal/proxy/change_log.go:396-403 | without a failing deletion the stored log is left as its survivors, and the number reported is the number removed if and only if nothing is left; with one, the log is as it was if the store rolls back, and cut by the deletions before it if not |
| CompactionLoop.HalfCutIsRefused | pkg/storage/mem_storage.go:48-54 | of an add and its delete cut by the first alone, the rest does not replay |
| CompactionLoop.SomethingSurvives | internal/proxy/change_log.go:412-457 | a log that does not end in a delete leaves something |
| CompactionReplay.StepMonotone | internal/proxy/change_log.go:141-182 | whatever a state accepts, a state with fewer stale links accepts too |
| CompactionReplay.CompactionPreservesReplay | internal/proxy/change_log.go:412-457 | if a log is accepted, its keys tell resources apart and overwrites are adjacent, the survivors are accepted and end in the same live resources, with no link the original lacks |
| CompactionLimits.LastAddSurvives | internal/proxy/change_log.go:412-457 | for every log: a key whose last command is an add still ends at that same add |
| CompactionLimits.PreservedIffSafe | internal/proxy/change_log.go:405-457 | the map of live items that a log describes if nothing is refused is preserved at every prefix of it if and only if no delete cancels an add of a key that was live beneath it |
| CompactionLimits.ReplayIsDescribed | internal/proxy/change_log.go:351-369 | where each resource has a key of its own, an accepted replay ends in the live map that the log describes |
| CompactionExact.CancelsNeutrally | internal/proxy/change_log.go:428-436 | an accepted add and delete of one key change nothing if and only if they are of the same resource and it was not live before |
| CompactionExact.SupersedesNeutrally | internal/proxy/change_log.go:439-447 | of two accepted adds of one key the second alone is accepted and does the same if and only if, for the same resource, its links make up for the first's, and for another, the first changed nothing |
| CompactionExact.ReplayPreservedIff | internal/proxy/change_log.go:412-457 | for every accepted log, whatever its keys: at every point of it the survivors are accepted and end in the very same state, links included, if and only if every delete that cancels is of the resource added and finds it not live beneath, and every add that supersedes makes up for the add below |
| CompactionExact.NamedServicesIff | internal/proxy/change_log.go:412-457 | for accepted logs that add routes with a service only, each resource having a key of its own: if and only if no delete cancels an add of a key that was live beneath it |
| CompactionEnd.EndPreservedIff | internal/proxy/change_log.go:412-457 | at the end of any log: the map of live items it describes is preserved if and only if every key whose last command is a delete has that delete safe |
| CompactionEnd.KeyPreservedIff | internal/proxy/change_log.go:412-457 | the same key by key |
| CompactionEnd.AcceptedEndsAlikeIff | internal/proxy/change_log.go:351-457 | for an accepted log with accepted survivors, each resource having a key of its own: they end in the same live resources under that condition and no other |
| CompactionEnd.OwnersKeptEndsAlikeIff | internal/proxy/change_log.go:412-457 | if such a log deletes no namespace, service or module, its survivors are accepted whatever else it does, nothing live is lost, and nothing else is live under that condition and no other |
| CompactionEnd.CoveringApplies | pkg/resources/resource_manager.go:111-880 | with more resources live, adds stay allowed and so do deletes of what nothing refers to |
| CompactionWitnesses.DeletedComesBack | internal/proxy/change_log.go:428-448 | a log of four commands whose compaction revives a deleted namespace |
| CompactionWitnesses.MisfiledIsLost | pkg/modules/dgate/state/state_mod.go:148 | a log of four adds, two by a script, whose compaction loses a collection |
| CompactionWitnesses.SurvivorsCanBeRefused | internal/proxy/change_log.go:439-448 | an accepted log of eight commands in which no delete cancels anything, and whose survivors are refused |
| Config.Check | internal/config/resources.go:23-32 | one of the validator's loops: accepts exactly when all items are in order and no two share a key, and else reports the first item that is not, a repeated key before anything else; its map has one entry an item |
| Config.Validate | internal/config/resources.go:9-213 | accepts exactly the configurations in order, and the count is the number of resources listed |
| Config.AcceptedMeans | internal/config/resources.go:9-213 | the same in the fields of the items: names and namespaces given and listed, no joined name twice, payloads, certificates and keys given as they must be, references to joined names that are there |
| ConfigLoad.LoadKind | internal/proxy/proxy_state.go:496-557 | the changes of one kind issued in turn, up to the first refused |
| ConfigStart.InitConfigResources | internal/proxy/proxy_state.go:479-566 | from any state, succeeds exactly when the configuration is validated or validation is off, every file it names can be read, and the load in its fixed order accepts everything; a validated one then leaves every namespace, module, service, route, domain and collection listed live as listed, and every other identity as it was |
| ConfigStart.LoadedMeans | internal/proxy/proxy_state.go:495-551 | the same of the load as a function |
| ConfigStart.LoadFiles | internal/proxy/proxy_state.go:526-531 | what is listed once in the load of a kind is live as listed after it |
| ConfigStart.LoadUntouched | internal/proxy/proxy_state.go:526-531 | the load of a kind leaves alone what it does not list |
| ConfigLoad.ResolvedLoads | internal/proxy/proxy_state.go:495-557 | into any state, a validated configuration loads if the routes' services and modules are listed in the routes' own namespaces or live there already |
| ConfigLoad.LoadsIffResolved | internal/proxy/proxy_state.go:495-557 | into any state, each validated configuration loads if and only if that is so |
| ConfigStart.LoadReading | internal/proxy/proxy_state.go:502-519 | changes of one kind whose items name files: up to the first file that cannot be read or change that is refused |
| ConfigLoad.SuffixFreeLoads | internal/proxy/proxy_state.go:495-557 | it is so if no namespace ends in a dash and another namespace |
| ConfigLoad.ValidatedLoadsIff | internal/config/resources.go:78-104 | into a manager without services, every validated configuration over given namespaces loads if and only if none of them is a dash suffix of another |
| ConfigLoad.StartHasNoServices | internal/proxy/proxy_state.go:91-120 | a manager starts so, with or without the default namespace |
| ConfigLoad.MisleadingIsRefused | internal/proxy/proxy_state.go:526-531 | the validated configuration that fails to load when one is |
| CacheModel.OverwriteHolds | pkg/cache/cache.go:190-200 | overwriting keeps what holds between calls, whatever stale pairs it leaves behind |
| CacheModel.WrittenMeans | pkg/cache/cache.go:190-210 | a write with a time to live is there at every time before now plus that time and at none after, one without at every time; other keys are as they were |
| CacheModel.InsertHolds | pkg/cache/cache.go:201-215 | so does a new item, once there is room |
| CacheModel.EvictHolds | pkg/cache/cache.go:179-188 | so does dropping the key of an earliest pair, and then there is room |
| CacheModel.NeverInconsistent | pkg/cache/cache.go:179-188 | with a limit there are at least as many pairs as items, so the panic on two empty queues is unreachable, and items never outnumber the limit by more than the overwrites and deletes |
| CacheModel.DeleteHolds | pkg/cache/cache.go:224-230 | so does a deletion |
| CacheModel.StaleHolds | pkg/cache/cache.go:112-115 | dropping a stale pair uncovers no item |
| CacheModel.ExpiredHolds | pkg/cache/cache.go:120-122 | dropping a pair and its key keeps what holds |
| CacheModel.SweepTakes | pkg/cache/cache.go:106-124 | after a finished sweep the key of every pair due in an earlier millisecond is gone, whatever item it had |
| CacheModel.SweepEnds | pkg/cache/cache.go:106-124 | when a sweep stops, no item is left that expired in an earlier millisecond |
| CacheModel.RightIff | pkg/cache/cache.go:153-163 | a bucket is right, in that all it lacks of the writes has expired, exactly when it answers for every key as the plain expiring map |
| CacheModel.ThreatensIff | pkg/cache/cache.go:111-122 | a pair is due at some time to come while another, unexpired item has its key, exactly if that item outlives it and has not expired yet |
| CacheModel.SweepKeepsRight | pkg/cache/cache.go:106-124 | a sweep leaves a right bucket right if no pair is due while another, unexpired item has its key |
| CacheModel.SweepRightIff | pkg/cache/cache.go:106-124 | and only if, for a finished sweep with no pair due in its very millisecond or with all times on millisecond boundaries |
| CacheModel.ThreatIsLost | pkg/cache/cache.go:106-124 | by such a pair of an earlier millisecond an item is lost that the plain map still has |
| CacheModel.NoneOutlivedStaysRight | pkg/cache/cache.go:106-124 | with no pair outlived by another item under its key, no sweep at any time makes a right bucket wrong |
| CacheModel.InsertOutlivesIff | pkg/cache/cache.go:201-215 | a new item leaves no pair outlived exactly when its expiration passes none left under the key |
| CacheModel.OverwriteOutlivesIff | pkg/cache/cache.go:190-200 | so does an overwrite, by pairs of other items |
| CacheModel.SweepStaysTidy | pkg/cache/cache.go:106-124 | a bucket in which every pair that is not stale is of the present item stays so by sweeps at millisecond boundaries |
| CacheModel.SetStays | pkg/cache/cache.go:175-216 | and by writes at such times that evict nothing |
| Cache.Bucket.Get | pkg/cache/cache.go:153-163 | a hit is the last value written and unexpired, in any run, and an unexpired item is always a hit; a right bucket answers as the plain expiring map |
| Cache.Bucket.Len | pkg/cache/cache.go:169-173 | the items never outnumber the limit by more than the overwrites and deletes so far |
| Cache.Bucket.Set | pkg/cache/cache.go:175-216 | the key answers with the value at every time from now to before now plus the time to live, for good if there is none, and with nothing after; other keys are as before; unless an item has to go the whole new state is given, a right bucket stays right, and a pair is left outlived if and only if the new expiration passes one that another item left under the key |
| Cache.SetThenGet | pkg/cache/cache.go:153-216 | a set, any calls that do not touch the key, and a get: a hit is the value, within its time to live only, and a right bucket hits throughout that time |
| Cache.Bucket.MakeRoom | pkg/cache/cache.go:178-189 | at the limit, and only then, the key of an earliest pair goes, from the queue of expiring items if it has any |
| CacheModel.QueuedWhen | pkg/cache/cache.go:190-215 | pairs are queued under the millisecond in which the item expires, or was written |
| Cache.Bucket.Delete | pkg/cache/cache.go:218-230 | forgets the key and says whether there was an item; a right bucket stays right and no pair becomes outlived |
| Cache.Bucket.Sweep | pkg/cache/cache.go:106-124 | ends; an item goes only by a due pair under its key; a right bucket stays right if and only if no pair threatens at the time; leaves no item that expired, and no pair, of an earlier millisecond |
| Cache.StalePairTakesNewItem | pkg/cache/cache.go:116-122 | a run that deletes a key and sets it again, after which a sweep takes the new item: the bucket misses where the plain map hits |
| Cache.Bucket.Clear | pkg/cache/cache.go:232-244 | forgets everything but the counts |
| SchedulerModel.OnePendingJob | pkg/scheduler/scheduler.go:187-234 | every definition has at most one pending job, a registered one is uncancelled and has exactly one |
| SchedulerModel.ScheduleHolds | pkg/scheduler/scheduler.go:220-232 | scheduling keeps that, and every run at its nominal time |
| SchedulerModel.StopHolds | pkg/scheduler/scheduler.go:242-250 | so does stopping |
| SchedulerModel.DropHolds | pkg/scheduler/scheduler.go:126-129 | so does dropping a cancelled job, which unregisters whatever has its name |
| SchedulerModel.RunHolds | pkg/scheduler/scheduler.go:154-169 | so does running a due job |
| SchedulerModel.TickRuns | pkg/scheduler/scheduler.go:130-139 | jobs of a tick run in non-decreasing due order, each due, none cancelled before the tick |
| SchedulerModel.RunGetsCheaper | pkg/scheduler/scheduler.go:132-138 | a measure on overdue repetitions falls with every run, so ticks end |
| SchedulerModel.DropGetsCheaper | pkg/scheduler/scheduler.go:126-129 | and with every cancelled job dropped |
| SchedulerModel.StandsStillIff | pkg/scheduler/scheduler.go:159-161 | a repeating task is put back at the same time exactly when its interval is under a microsecond |
| SchedulerModel.RunTimes | pkg/scheduler/scheduler.go:154-169 | the i-th run is at the first due time plus i intervals |
| SchedulerModel.RunCount | pkg/scheduler/scheduler.go:111-169 | once a tick at now is done, a live task first due at T with interval I has run exactly max(0, (now-T)/I + 1) times, at T, T+I, T+2I and so on |
| SchedulerModel.OneShot | pkg/scheduler/scheduler.go:156-158 | a task that does not repeat runs at most once, at its due time |
| SchedulerModel.CancelledStaysStill | pkg/scheduler/scheduler.go:126-129 | a task stopped or overwritten before a tick does not run in it |
| Scheduler.Scheduler.Start | pkg/scheduler/scheduler.go:95-103 | refused when running |
| Scheduler.Scheduler.ScheduleTask | pkg/scheduler/scheduler.go:187-234 | every refusal exactly for the options it is for, in the code's order; a task accepted at a time is first due its timeout, else its interval, later, in microseconds; an existing task is stopped before the options are looked at, so refused options lose it |
| Scheduler.Scheduler.StopTask | pkg/scheduler/scheduler.go:236-250 | the task is cancelled and off the register, its job stays pending |
| Scheduler.Scheduler.Tick | pkg/scheduler/scheduler.go:112-141 | ends with nothing due; every task not cancelled before has run exactly on its schedule so far, no cancelled one has run, nothing ran before it was first due, and a cancelled job that came up took whatever had its name off the register |
| Scheduler.ScheduleAndTick | pkg/scheduler/scheduler.go:112-234 | a task scheduled and one tick later: no run before the timeout or interval is over, one at the end of the timeout, one at every multiple of the interval |
| SchedulerModel.TickMeans | pkg/scheduler/scheduler.go:112-150 | what a finished tick has run, in first due times and intervals |
| SchedulerModel.NothingEarly | pkg/scheduler/scheduler.go:130-136 | no run is before the first due time or ahead of the clock |
| SchedulerModel.OneShotRan | pkg/scheduler/scheduler.go:130-169 | a task that does not repeat has run once it is due, unless cancelled before |
| MergeSort.MergeSorts | pkg/util/linkedlist/linkedlist_sort.go:53-77 | merging two lists sorted by a strict weak order gives a sorted one |
| MergeSort.MergeKeeps | pkg/util/linkedlist/linkedlist_sort.go:53-77 | of exactly their nodes |
| MergeSort.PassDoubles | pkg/util/linkedlist/linkedlist_sort.go:112-132 | a pass over sorted runs leaves sorted runs of twice the length |
| MergeSort.BottomUpKeeps | pkg/util/linkedlist/linkedlist_sort.go:94-137 | the iterative sort gives a permutation of the nodes |
| MergeSort.BottomUpSorts | pkg/util/linkedlist/linkedlist_sort.go:94-137 | sorted, for any strict weak order |
| MergeSort.TopDownKeeps | pkg/util/linkedlist/linkedlist_sort.go:20-38 | so is the recursive sort's result a permutation |
| MergeSort.TopDownSorts | pkg/util/linkedlist/linkedlist_sort.go:20-38 | and sorted |
| MergeSort.SortsAgree | pkg/util/linkedlist/linkedlist_sort.go:11-137 | under a strict total order both give the same sequence of values |
| ListSort.Split | pkg/util/linkedlist/linkedlist_sort.go:140-151 | cuts a list in two that share no node |
| ListSort.Merge | pkg/util/linkedlist/linkedlist_sort.go:53-77 | rewires two lists into the acyclic list of their merged nodes |
| ListSort.PassOnce | pkg/util/linkedlist/linkedlist_sort.go:113-131 | one round of splits and merges, in place, is one pass, and ends at the last node |
| ListSort.SortIterative | pkg/util/linkedlist/linkedlist_sort.go:94-137 | the whole loop is the sort on sequences, and the tail is the last node |
| ListSort.FindMiddle | pkg/util/linkedlist/linkedlist_sort.go:41-50 | the node at the end of the first half, the larger one |
| ListSort.SortRecursive | pkg/util/linkedlist/linkedlist_sort.go:20-38 | the recursion in place is the sort on sequences |
| ListSort.LinkedList.SortIteratively | pkg/util/linkedlist/linkedlist_sort.go:89-91 | an acyclic list of the original nodes, sorted for any strict weak order, its tail the last node |
| ListSort.LinkedList.SortRecursively | pkg/util/linkedlist/linkedlist_sort.go:11-17 | likewise |
| Storage.NoneAfter | pkg/storage/file_storage.go:194 | past a key that is not before the prefix and lacks it, no key has it |
| Storage.Contiguous | pkg/storage/file_storage.go:190-206 | the keys from the first not before the prefix to the first without it are all that have it |
| Storage.WalkCollects | pkg/storage/mem_storage.go:56-106 | the filtering walk with its countdown collects the page |
| Storage.PagesJoin | pkg/storage/mem_storage.go:86-106 | consecutive pages make up the larger page |
| Storage.PageMeans | pkg/storage/mem_storage.go:86-106 | a page holds what stands from the offset on, as far as limit and listing go |
| Storage.WithPrefixMeans | pkg/storage/mem_storage.go:56-70 | what is listed for a prefix is exactly the pairs whose key starts with it |
| Storage.FilePageMeans | pkg/storage/file_storage.go:190-206 | the file store's page row by row, a negative limit being none |
| Storage.MemStore.GetPrefix | pkg/storage/mem_storage.go:86-106 | the page of the keys with the prefix, in order |
| Storage.Cursor.Seek | pkg/storage/file_storage.go:194 | stops at the first key not before the one sought |
| Storage.GetPrefix | pkg/storage/file_storage.go:190-206 | seeking and stopping early gives the same page; a negative limit is no limit; at the empty prefix the page is padded past the end, and with a negative limit no number of turns of the loop suffices |
| Storage.SamePage | pkg/storage/file_storage.go:190-206 | both stores, holding the same pairs, return the same rows if and only if, for a limit that is not negative, the prefix is not empty or the limit is zero or what is asked for is there; for a negative one, the prefix is not empty and nothing lies past the offset |
| Storage.TwoPairsAreFiveRows | pkg/storage/file_storage.go:190-206 | two pairs asked for five at the empty prefix: three empty rows more |

## Left out

- AvlTree.Tree.Insert: requires that the model's insertion does not panic, which is so for every tree grown from empty; AvlPanics.InsertPanicsExactly says when it is not so.
- AvlTree.Tree.Pop: claims removal and the flag; the value is AvlMap.PopReturns'.
- Heap.Heap.Push: keys are unbounded integers, as in both uses of the heap, and not an arbitrary ordered type.
- Linker.Link.LinkOneMany: a vertex's edge trees are taken as the finite maps that the AVL tree is proved to be; Clone, JSON and UnlinkAllOneMany are not modelled.
- ResourceManager.Manager.AddOwned: one method for AddService, AddModule, AddDomain, AddCollection and AddSecret, which differ in edge names, in the payload check and in which of the two links is made first.
- ResourceManager.Manager.RemoveOwned: one method for RemoveDomain, RemoveCollection and RemoveSecret; secrets block no namespace removal and can outlive their namespace, as in the code.
- ResourceManager.Manager.Call: the seven trees are one map by kind, name and namespace; specs are stored as submitted, without pointers to other specs; Clear is not part of a run.
- ResourceManager.Manager.GetRoute: modules are read as a map by name, not as a list; what a removed module is read as, its item when it was removed, is not stated.
- ResourceManager.Manager.FindNamespaceByRequest: pattern matching is an arbitrary function of host and pattern that may fail, and the root of the namespace tree is any namespace.
- ResourceManager.Manager.DomainsByPriority: the library sort is an insertion sort with the same contract; it leaves the order of two domains with the same priority and name open.
- CompactionReplay.CompactionPreservesReplay: supposes that no two entries have one key but different resources; the survivors' links may be fewer than the original's, since merged updates leave fewer stale links behind, and CompactionExact.ReplayPreservedIff says when they are the same.
- CompactionEnd.AcceptedEndsAlikeIff: takes the acceptance of the survivors for granted; acceptance has its exact condition at every point of a log (CompactionExact.ReplayPreservedIff) and sufficient ones for the end (CompactionEnd.OwnersKeptEndsAlikeIff, CompactionReplay.CompactionPreservesReplay). Like CompactionExact.NamedServicesIff it supposes that each resource has one key of its own.
- CompactionLimits.ReplayIsDescribed: supposes that each resource has one key of its own, without which no map by key describes the live resources.
- ChangeLogs.Restore: debug mode, which skips failing entries, the stored copy of the log and the final reconfiguration are not modelled; neither are documents, which restore skips.
- Config.Validate: its eight loops are one generic loop with the checks of each kind; error texts are data.
- Cache.SetThenGet: with a limit a fresh item may be evicted by other writes; then the bucket is no longer right and the get may miss.
- ConfigStart.InitConfigResources: what is read from files, and what payloads encode to, is left out; documents are validated and counted but do not touch the graph, and secrets are validated and counted but never loaded.
- Cache.Bucket.Get: with a limit, items may go early by design, and nothing is claimed beyond a hit being right.
- Cache.Bucket.Sweep: one clock reading for a whole sweep; 64-bit overflow of times is not modelled.
- Scheduler.Scheduler.constructor: excludes a scheduler interval under one microsecond, with which a tick may never end.
- Scheduler.Scheduler.Tick: one clock reading for a whole tick; the task function is code of its own and only recorded; Stop and the goroutine around the tick are left out.
- Storage.GetPrefix: bolt's bucket is a sorted sequence of pairs with a cursor that stays past the end; the read is watched for a number of turns, given by the caller, and says nothing if they do not suffice.
- HTTP handling, proxying, raft, the client, JavaScript modules, metrics, logging and TLS; locks and goroutines, each locked body being one step.
