# Asset dependency backend, modelled in Dafny

This project models the core of the asset-dependency backend of the Unity
RelationsInspector (AssetReferenceBackend). The backend asks the editor which
objects an object depends on and builds a graph of them. Groups of objects
that depend on exactly the same things become one "cycle representative"
node. The graph is then reduced from a root, so that a node is shown under a
parent only when no other open node also lists it. Graphs of several roots or
scans are merged, with representatives of equal member sets identified. The
two inspector backends keep the merged graph of a session, report its
relations, and turn a selection of nodes back into editor objects.

The modules follow the source files:

- `CycleReps` (cycle_reps.dfy) covers CycleRep.cs: host objects (`Entity`), graph nodes (`Obj`: a host object or a representative), and `Create` with its anchor rule.
- `ObjectGraphUtil` (object_graph_util.dfy) covers the pure parts of ObjectGraphUtil.cs: the two-level dependency map, the target filter and `GetRoots`.
- `CycleFree` (cycle_free.dfy) is the grouping loop of `GetCycleFreeDependencies`.
- `DependencyGraph` (dependency_graph.dfy) covers `GetDependencyGraph`: root resolution and the queue-driven reduction.
- `GraphMerge` (graph_merge.dfy) is `MergeGraphs`.
- `ObjectDependencyUtil` (object_dependency_util.dfy) covers ObjectDependencyUtil.cs:
  - the display node of SceneObjectNode.cs;
  - the in-place `AddGraph` on a `Graph` class;
  - the edge flip `ObjectGraphToObjectNodeGraph`;
  - the per-root scan fold.
- `DependencyBackend` and `AssetReferenceBackend` model the two backend classes as Dafny classes whose fields are the session graphs.
- `SetComparer` (set_comparer.dfy) models SetComparer.cs with explicit signed 32-bit wrap-around.
- `Relations` (relations.dfy) holds the relation record the inspector receives, and the newline join used by a tooltip.

The editor's dependency collector is a parameter `deps: Entity -> set<Entity>`.
`GetDependencyGraph` requires it to be transitive on what the root depends on
(`TransitiveOracle`), as the editor's collector is. In the model that
requirement is what makes the reduction loop terminate: `Rank` decreases along
every edge that is not a self-loop. The source's loop has no guard of its own
(see "Left out"). Object identity is modelled by ids: a representative's `id`
stands for the fresh instance `CreateInstance` returns, and threads through the
model as a counter.

## Model

| member | source | states |
|---|---|---|
| CycleReps.GetGameObject | CycleRep.cs:35-49 | error iff two members are GameObjects (SingleOrDefault throws); otherwise `Some(g)` iff `g` is a member GameObject every other member is a component of |
| CycleReps.Create | CycleRep.cs:14-21 | fails iff the anchor is ambiguous; otherwise a representative with the given members, the anchor by the rule above, named after the anchor or "Cycle Rep" |
| CycleReps.EqualMembers | CycleRep.cs:28-31 | false for a missing argument, otherwise set equality of the members |
| CycleReps.EqualMembersReflexiveSymmetric | CycleRep.cs:28-31 | member equality is reflexive and symmetric, and false against null |
| CycleReps.SingletonCreateOk | CycleRep.cs:14-21 | a representative of one object is always created, anchored iff that object is a GameObject |
| CycleReps.TwoGameObjectsCard | CycleRep.cs:37 | "more than one GameObject member" is the same as the GameObject subset having more than one element |
| ObjectGraphUtil.GetAllDependencies | ObjectGraphUtil.cs:138-145 | keys are exactly the root's dependencies, each mapped to its own dependencies |
| ObjectGraphUtil.Connect | ObjectGraphUtil.cs:119-133 | no targets gives the map unchanged; otherwise keys are exactly those whose successors meet a target, and successors are cut to such keys |
| ObjectGraphUtil.GetConnectedDependencies | ObjectGraphUtil.cs:115-136 | keys are dependencies of the root; each key's successors are among its dependencies |
| ObjectGraphUtil.ConnectClosed | ObjectGraphUtil.cs:129-133 | with targets, every successor of the filtered map is a key |
| ObjectGraphUtil.ConnectedTransitive | ObjectGraphUtil.cs:115-145 | a transitive collector gives a transitive filtered map |
| ObjectGraphUtil.GetRoots | ObjectGraphUtil.cs:193-197 | a key is a root iff no successor set (its own included) contains it |
| ObjectGraphUtil.SelfLoopNotRoot | ObjectGraphUtil.cs:196 | a key listing itself is never a root |
| ObjectGraphUtil.RootsExample | ObjectGraphUtil.cs:193-197 | {A:{B}, C:{B}, B:{}} has roots {A, C} |
| CycleFree.GetCycleFreeDependencies | ObjectGraphUtil.cs:66-113 | error iff some group of keys with equal successor sets has two GameObjects; otherwise the result is a collapse: keys get one substitute iff their successor sets are equal; the result's keys are the substitutes; a representative's successors are the shared successors minus its members, substituted; new representative ids are fresh |
| CycleFree.GroupingComplete | ObjectGraphUtil.cs:77-112 | when the loop's invariant holds with nothing untested, the built map is a collapse and no group fails |
| CycleFree.CollapseSeparates | ObjectGraphUtil.cs:83-94 | two keys get the same substitute iff their successor sets are equal |
| CycleFree.CollapseKeyOrigin | ObjectGraphUtil.cs:103-106 | a node is a key of the collapse iff it is some key's substitute |
| CycleFree.NoClusterListsItself | ObjectGraphUtil.cs:91 | a representative never lists itself as a successor |
| CycleFree.GroupOfOneKeepsSelfLoop | ObjectGraphUtil.cs:110-111 | a key grouped alone keeps its own successors, itself included |
| CycleFree.RepMembers | ObjectGraphUtil.cs:89-94 | a representative's members are exactly the keys it substitutes |
| CycleFree.RepContainingUnique | ObjectGraphUtil.cs:89-94 | a representative key holding an object is that object's substitute, so it is unique |
| CycleFree.MutualPairNotCollapsed | ObjectGraphUtil.cs:83-85 | {X:{Y}, Y:{X}} is left as it is: the successor sets differ |
| CycleFree.EqualSuccessorsCollapsed | ObjectGraphUtil.cs:83-112 | {A:{B,C}, B:{D}, C:{D}} collapses to {A:{R}, R:{D}} with R's members {B, C} |
| DependencyGraph.KeepUnshared | ObjectGraphUtil.cs:48-57 | the kept children are exactly the item's other successors that no other open node lists |
| DependencyGraph.Reduce | ObjectGraphUtil.cs:40-61 | given a closed map with no cycles but self-loops, the loop ends and its graph has these properties: root present; no self-edges; children were successors; parents of kept children are shown; a successor is dropped only if another node lists it; every node but the root is someone's child; nobody lists the root |
| DependencyGraph.ReducedSingleRoot | ObjectGraphUtil.cs:40-61 | the reduced graph's only root is the graph root |
| DependencyGraph.CollapseRanked | ObjectGraphUtil.cs:66-113 | the collapse of a transitive map is closed and its rank drops along every edge that is not a self-loop |
| DependencyGraph.FreshRootRanked | ObjectGraphUtil.cs:34-37 | adding the fresh root over the collapse's roots keeps the map closed and ranked |
| DependencyGraph.RootResolution | ObjectGraphUtil.cs:20-28 | the root's own node, or the only representative holding it, is found exactly when the root was scanned, and it is the root's substitute |
| DependencyGraph.FreshRepNotKey | ObjectGraphUtil.cs:34-35 | a representative with a fresh id is never already a key of the collapse |
| DependencyGraph.CollapseEmpty | ObjectGraphUtil.cs:14-16 | the collapse is empty iff the scan is empty |
| DependencyGraph.ResolveGraphRoot | ObjectGraphUtil.cs:20-38 | a scanned root gives its substitute and leaves the map alone; otherwise a fresh representative of {root} named after the root is added, listing the collapse's roots |
| DependencyGraph.GetDependencyGraph | ObjectGraphUtil.cs:12-64 | error iff the collapse fails; empty scan gives empty graph; otherwise the reduction of the collapse from the node resolved for `root` (its substitute, or a fresh representative of it alone over the collapse's roots), with exactly one root |
| DependencyGraph.ScanRootHoldsTarget | ObjectGraphUtil.cs:20-61 | a nonempty scan graph has exactly one root, and it is the scanned object's own node or a representative holding it |
| DependencyGraph.OtherRootRejected | ObjectGraphUtil.cs:20-28 | a graph made only of another object's node is never the scan of `root` |
| GraphMerge.FindMatch | ObjectGraphUtil.cs:166-173 | a found match is a representative of `b` with equal members; none found means `b` has none |
| GraphMerge.MatchReps | ObjectGraphUtil.cs:159-174 | every match pairs a representative of `a` with one of `b` with equal members, and every unmatched representative of `a` has no such partner |
| GraphMerge.AddEdges | ObjectGraphUtil.cs:181-187 | the key gets its old edges (or none) plus the added values; every other key unchanged |
| GraphMerge.MergeGraphs | ObjectGraphUtil.cs:157-191 | the result is `b` plus the substituted keys and edges of `a`, under a valid matching |
| GraphMerge.MergeIntoEmpty | ObjectGraphUtil.cs:157-191 | merging into an empty graph gives the added graph back |
| GraphMerge.MergeEmpty | ObjectGraphUtil.cs:157-191 | merging an empty graph changes nothing |
| GraphMerge.MergeKeepsEdge | ObjectGraphUtil.cs:179-188 | every edge of `a` appears, substituted at both ends |
| GraphMerge.MergeKeepsBoth | ObjectGraphUtil.cs:178-188 | every key and edge of `b`, and every substituted key and edge of `a`, is kept |
| GraphMerge.LeafKeysKept | ObjectGraphUtil.cs:159-176 | a key that is not a representative is never substituted |
| GraphMerge.RepsUnified | ObjectGraphUtil.cs:164-176 | a representative of `a` is replaced by one of `b` with equal members iff `b` has one |
| GraphMerge.MergeConverges | ObjectGraphUtil.cs:156-191 | two representative instances with equal members merge into the `b` instance with united edges |
| GraphMerge.MatchesDetermined | ObjectGraphUtil.cs:164-174 | when `b` has one representative per member set, the matching is unique whatever the visiting order |
| ObjectDependencyUtil.Graph.AddGraph | ObjectDependencyUtil.cs:185-194 | the graph becomes the old graph with the added graph united in, key by key (`Added`, whose contents `AddedContents` states) |
| ObjectDependencyUtil.AddedContents | ObjectDependencyUtil.cs:187-193 | keys become old plus added; an added key's set is united into the old one, or taken as is when new; other keys keep their sets |
| ObjectDependencyUtil.AddedGrows | ObjectDependencyUtil.cs:187-193 | no key or edge of either graph is lost |
| ObjectDependencyUtil.AddEmpty | ObjectDependencyUtil.cs:187-193 | adding an empty graph changes nothing |
| ObjectDependencyUtil.AddTwice | ObjectDependencyUtil.cs:189-192 | adding the same graph twice leaves what adding it once leaves |
| ObjectDependencyUtil.ObjectGraphToObjectNodeGraph | ObjectDependencyUtil.cs:77-95 | keys are exactly the nodes of referenced objects; each object edge k→x appears flipped as node(x)→node(k); requires distinct nodes for referenced objects, since the dictionary build throws otherwise |
| ObjectDependencyUtil.EdgesFlipped | ObjectDependencyUtil.cs:88-93 | with distinct nodes, node(k) is a successor of node(x) iff x ∈ objGraph[k], and an object nobody references is never a key |
| ObjectDependencyUtil.ScanRoots | ObjectDependencyUtil.cs:54-60 | error iff some root's scan fails to collapse; otherwise starting from the empty map, each root's dependency graph (reduced from that root's node) is merged in order |
| ObjectDependencyUtil.NoRootsEmptyFold | ObjectDependencyUtil.cs:54-60 | a scene without roots gives the empty object graph |
| ObjectDependencyUtil.FoldNeverFails | ObjectDependencyUtil.cs:56-60 | a fold that reaches the end had no root whose scan threw |
| ObjectDependencyUtil.SceneFoldStep | ObjectDependencyUtil.cs:28-34 | merging one more root's graph extends the fold by one step |
| DependencyBackend.DependencyBackend.Awake | DependencyBackend.cs:16-20 | the session graph starts empty |
| DependencyBackend.DependencyBackend.Init | DependencyBackend.cs:22-30 | the session graph becomes the merge of the old graph with the target's scan; the scan's roots are returned: none or one, and that one is the target's node or a representative holding it; on error the graph is unchanged |
| DependencyBackend.ScanTarget | DependencyBackend.cs:25 | the target's scan without target filter, reduced from the target's node; error iff its collapse fails |
| DependencyBackend.DependencyBackend.GetRelations | DependencyBackend.cs:32-39 | nothing for a non-key; otherwise exactly one untagged relation per successor |
| DependencyBackend.SelectionSubstitute | DependencyBackend.cs:56-69 | a host object selects itself; a representative of one object selects it; one with an anchor selects the anchor; any other selects itself |
| DependencyBackend.SelectedObjects | DependencyBackend.cs:71 | each selected node substituted, in order |
| DependencyBackend.SelectionStaysInGroup | DependencyBackend.cs:56-69 | for a created representative the selection is the group itself or one of its members, and substituting twice equals once |
| DependencyBackend.EntityTooltip | DependencyBackend.cs:41-51 | default tooltip for a host object; the anchor's name for an anchored group; otherwise the member names, in enumeration order, joined with newlines; when no name holds a newline they split back into the names |
| Relations.Outgoing | DependencyBackend.cs:37-38 | one untagged relation per successor, as many as there are successors |
| Relations.SplitJoin | DependencyBackend.cs:48 | lines without newlines are recovered by splitting the joined text |
| AssetReferenceBackend.PlaceholderNode | AssetReferenceBackend.cs:44-45 | label and tooltip are the target's name plus "\n(unreferenced)"; selects the target; not a scene object |
| AssetReferenceBackend.AssetReferenceBackend.Awake | AssetReferenceBackend.cs:25-29 | the reference graph is a new, empty graph |
| AssetReferenceBackend.AssetReferenceBackend.Init | AssetReferenceBackend.cs:31-56 | the scan graphs, or the placeholder graph when all are empty, are added in order; the roots of the whole accumulated graph are returned |
| AssetReferenceBackend.AddAllGrows | AssetReferenceBackend.cs:51-52 | the reference graph only grows: every old and every added key and edge is kept |
| AssetReferenceBackend.AddAllKeys | AssetReferenceBackend.cs:51-52 | every key of the result was an old key or a key of an added graph |
| AssetReferenceBackend.PlaceholderIsKey | AssetReferenceBackend.cs:42-52 | when every scan is empty, the placeholder becomes a key |
| AssetReferenceBackend.AssetReferenceBackend.GetRelations | AssetReferenceBackend.cs:58-65 | nothing for an unknown node; otherwise exactly one untagged relation per successor |
| AssetReferenceBackend.SelectedObject | AssetReferenceBackend.cs:120-125 | error iff more than one node is selected; `Some(e)` iff one node holding exactly `[e]`; nothing otherwise |
| AssetReferenceBackend.PlaceholderSelectsTarget | AssetReferenceBackend.cs:122-124 | selecting the placeholder selects the target |
| SetComparer.Wrap32 | SetComparer.cs:19-22 | the signed 32-bit value congruent to the argument modulo 2^32 |
| SetComparer.WrapCongruent | SetComparer.cs:19-22 | numbers congruent modulo 2^32 wrap to the same value |
| SetComparer.Equals | SetComparer.cs:9-12 | true iff both sets have the same elements |
| SetComparer.EqualsIsEquivalence | SetComparer.cs:9-12 | reflexive, symmetric and transitive |
| SetComparer.GetHashCode | SetComparer.cs:14-25 | the loop computes the left fold `h*23 + itemHash` from 17 |
| SetComparer.HashIsWrappedPolynomial | SetComparer.cs:16-22 | the wrapped fold equals the unbounded polynomial 17·23^n + Σ item·23^(n-1-i), wrapped once |
| SetComparer.EmptyHash | SetComparer.cs:16-24 | the empty set hashes to 17 |
| SetComparer.SingletonHash | SetComparer.cs:21 | one item hashes to 391 plus its hash, wrapped |
| SetComparer.OrderMatters | SetComparer.cs:17-22 | the same two items give 8994 in one order and 9016 in the other |

## Left out

- Editor I/O is not modelled, and roots and scan graphs are inputs instead. This covers the scene file loading, object destruction and garbage collection of `GetReferenceGraph` (ObjectDependencyUtil.cs:14-47) and the hierarchy walk of `ActiveSceneRootGameObjects` (66-74).
- The two scene entry points are `ScanRoots` followed by `ObjectGraphToObjectNodeGraph`, and are not written out as one member.
- `GetDependencies` (ObjectGraphUtil.cs:148-154) is the parameter `deps`, and the model requires it to be transitive (`TransitiveOracle`).
- The node builders `GetActiveSceneObjectNode` and `GetSceneObjectNode`, and `IsSceneObject` and `IsPrefab` (ObjectDependencyUtil.cs:97-182), are not modelled. They assemble display text from editor path and name APIs, so the node function `getNode` is a parameter.
- GUI code is not modelled: `OnGUI`, `DrawContent`, `GetContent`, the colour legend and `CycleRep.ToString`.
- The tooltip of a reference-graph node is its `tooltip` field (AssetReferenceBackend.cs:115-118). No member is needed for it.
- Writes to the editor selection are results of functions: `SelectedObjects` and `SelectedObject`.
- Null inputs are not modelled: a `target` that is not an editor object, a null root, and null entries in sets.
- Relations are a set, not the ordered sequence the enumerators yield, so the order they are yielded in is not modelled.
- Hash-set enumeration order is not modelled. `First()`, the keys the matching loop visits first and the grouping order are all free choices in the model. `GraphMerge.MatchesDetermined` shows the matching is unique when `b` has one representative per member set. When `b` has two with equal members, which one wins is not fixed.
- GraphMerge.MergeGraphs: uses value semantics. The source copies `b`'s dictionary but shares its hash sets (ObjectGraphUtil.cs:178), and then adds `a`'s edges into them (187), which also changes `b`. In `DependencyBackend.Init`, `GetRoots` (line 29) runs over the scan graph after that change. The model computes the roots of the scan as `GetDependencyGraph` returned it.
- ObjectDependencyUtil.Graph.AddGraph: uses value semantics. The source stores the added graph's own set for a new key (ObjectDependencyUtil.cs:190), so later unions into that key also change the added graph. This aliasing is not modelled.
- DependencyGraph.Reduce: requires a map whose only cycles are self-loops (`Ranked`). The source's queue (ObjectGraphUtil.cs:43-61) has no such guard. On the map {X:{Y}, Y:{X}} reduced from X it would keep re-queueing X and Y. Such a map never reaches it here, because with a transitive collector mutual dependencies have equal successor sets and collapse into one representative.
- DependencyGraph.Reduce: the contract states properties of the reduced graph (`Reduced`) rather than the exact edge sets. Which successors are kept depends on the order in which the queue closes nodes. The model does not prove that every node of the cycle-free map appears.
- DependencyGraph.GetDependencyGraph: fresh representatives get ids from a counter, which stands for `CreateInstance`. The model does not prove that ids are fresh against earlier sessions' graphs.
- SetComparer.GetHashCode: the hash is over a sequence, the set's enumeration order. Set-equal sets enumerated differently may hash differently (see `OrderMatters`), so hash consistency with `Equals` is not claimed. Item hashes are the parameter `itemHash`.
- DependencyBackend.EntityTooltip: the framework's default tooltip is a parameter, and so is the members' enumeration order, which lists each member once.
- AssetReferenceBackend.AssetReferenceBackend.Init: the source builds exactly one scan graph, from the active scene (AssetReferenceBackend.cs:39). The model takes any sequence of scan graphs, which also covers the commented-out per-scene variant (line 37). The placeholder's identity is the parameter `dummyId`.
- AssetReferenceBackend.SelectedObject: `SingleOrDefault` (AssetReferenceBackend.cs:122) throws when more than one node is selected. The model returns `Err(AmbiguousSelection)` for that case.
