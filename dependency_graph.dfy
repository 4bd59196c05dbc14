/** GetDependencyGraph (ObjectGraphUtil.cs:12-64): picks or creates the scan's
    root node and reduces the cycle-free map with a queue, keeping an edge
    only when no other node still waiting to be expanded points at the
    child too. */
module DependencyGraph {
  import opened CycleReps
  import opened ObjectGraphUtil
  import opened CycleFree

  /** Every successor is a key. */
  ghost predicate Closed(cf: ObjMap) {
    forall x, c :: x in cf && c in cf[x] ==> c in cf
  }

  /** `rank` strictly decreases along every edge other than a self-loop: the
      map has no cycles other than self-loops. */
  ghost predicate Ranked(cf: ObjMap, rank: map<Obj, nat>) {
    && cf.Keys <= rank.Keys
    && forall x, c :: x in cf && c in cf[x] && c != x ==> c in rank && rank[c] < rank[x]
  }

  /** Some open node other than `c` still lists `c` as a successor. */
  predicate SharedWithOpen(cf: ObjMap, openNodes: set<Obj>, c: Obj)
    requires openNodes <= cf.Keys
  {
    exists x :: x in openNodes && x != c && c in cf[x]
  }

  ghost predicate NoSelfChild(graph: ObjMap) {
    forall x :: x in graph ==> x !in graph[x]
  }

  ghost predicate ChildrenWereSuccessors(cf: ObjMap, graph: ObjMap) {
    forall x :: x in graph ==> x in cf && graph[x] <= cf[x]
  }

  /** No kept child is also a successor of one of its parent's other
      successors. */
  ghost predicate NoSiblingImplies(cf: ObjMap, graph: ObjMap) {
    forall x, c, s :: x in graph && x in cf && c in graph[x] && s in cf && s in cf[x] && s != x && s != c ==> c !in cf[s]
  }

  /** Every node that lists a kept child is itself in the graph. */
  ghost predicate ParentsShown(cf: ObjMap, graph: ObjMap) {
    forall x, c, p :: x in graph && c in graph[x] && p in cf && p != c && c in cf[p] ==> p in graph
  }

  /** A successor is dropped only because another node also lists it. */
  ghost predicate DroppedOnlyIfShared(cf: ObjMap, graph: ObjMap) {
    forall x, c :: x in graph && x in cf && c in cf[x] && c != x && c !in graph[x] ==>
      exists p :: p in cf && p != x && p != c && c in cf[p]
  }

  ghost predicate ChildrenShown(graph: ObjMap) {
    forall x, c :: x in graph && c in graph[x] ==> c in graph
  }

  /** Every node other than the root is some node's child. */
  ghost predicate Reached(graph: ObjMap, root: Obj) {
    forall x :: x in graph && x != root ==> exists p :: p in graph && x in graph[p]
  }

  /** No node lists the root. */
  ghost predicate RootUnlisted(graph: ObjMap, root: Obj) {
    forall x :: x in graph ==> root !in graph[x]
  }

  /** The result of the queue-driven reduction of `cf` from `root`. */
  ghost predicate Reduced(cf: ObjMap, root: Obj, graph: ObjMap) {
    && root in graph
    && graph.Keys <= cf.Keys
    && NoSelfChild(graph)
    && ChildrenWereSuccessors(cf, graph)
    && NoSiblingImplies(cf, graph)
    && ParentsShown(cf, graph)
    && DroppedOnlyIfShared(cf, graph)
    && ChildrenShown(graph)
    && Reached(graph, root)
    && RootUnlisted(graph, root)
  }

  /** The state of the queue loop. Queued nodes are open and distinct;
      every node ever queued other than the root had no open parent other
      than itself when it was queued, and ranks below the root. */
  ghost predicate QueueShape(cf: ObjMap, rank: map<Obj, nat>, root: Obj, openNodes: set<Obj>,
                             toExpand: seq<Obj>, graph: ObjMap, enqueued: set<Obj>)
  {
    && root in cf && Closed(cf) && Ranked(cf, rank)
    && openNodes <= cf.Keys
    && graph.Keys == cf.Keys - openNodes
    && (forall i :: 0 <= i < |toExpand| ==> toExpand[i] in openNodes && toExpand[i] in enqueued)
    && (forall i, j :: 0 <= i < j < |toExpand| ==> toExpand[i] != toExpand[j])
    && enqueued <= cf.Keys && graph.Keys <= enqueued && root in enqueued
    && (forall x :: x in enqueued && x != root ==> rank[x] < rank[root])
    && (forall x, p :: x in enqueued && x != root && p in openNodes && p != x ==> x !in cf[p])
  }

  ghost predicate GraphSoFar(cf: ObjMap, graph: ObjMap) {
    && NoSelfChild(graph) && ChildrenWereSuccessors(cf, graph) && NoSiblingImplies(cf, graph)
    && ParentsShown(cf, graph) && DroppedOnlyIfShared(cf, graph)
  }

  /** Every child in the graph is expanded or waiting in the queue. */
  ghost predicate QueueCovers(root: Obj, toExpand: seq<Obj>, graph: ObjMap, enqueued: set<Obj>) {
    && (forall x, c :: x in graph && c in graph[x] ==> c in graph || c in toExpand)
    && (root in graph || toExpand == [root])
    && (forall x :: x in enqueued && x != root ==> exists p :: p in graph && x in graph[p])
    && RootUnlisted(graph, root)
  }

  ghost predicate QueueInvariant(cf: ObjMap, rank: map<Obj, nat>, root: Obj, openNodes: set<Obj>,
                                 toExpand: seq<Obj>, graph: ObjMap, enqueued: set<Obj>)
  {
    && QueueShape(cf, rank, root, openNodes, toExpand, graph, enqueued)
    && GraphSoFar(cf, graph)
    && QueueCovers(root, toExpand, graph, enqueued)
  }

  /** What the candidate loop computes for `item`: its successors other than
      itself that no open node other than themselves lists. */
  ghost predicate KeptChildren(cf: ObjMap, openNodes: set<Obj>, item: Obj, successors: set<Obj>, batch: seq<Obj>)
    requires item in cf && openNodes <= cf.Keys
  {
    && (forall c :: c in successors <==> c in cf[item] && c != item && !SharedWithOpen(cf, openNodes, c))
    && (forall c :: c in batch <==> c in successors)
    && (forall i, j :: 0 <= i < j < |batch| ==> batch[i] != batch[j])
  }

  /** Kept children were never queued before and are still open; so are all
      of the item's other successors. */
  lemma {:induction false} KeptChildrenFresh(cf: ObjMap, rank: map<Obj, nat>, root: Obj, openNodes: set<Obj>,
                                             toExpand: seq<Obj>, graph: ObjMap, enqueued: set<Obj>)
    requires QueueShape(cf, rank, root, openNodes, toExpand, graph, enqueued)
    requires |toExpand| > 0
    ensures forall s :: s in cf[toExpand[0]] && s != toExpand[0] ==>
      s !in enqueued && s in openNodes - {toExpand[0]} && rank[s] < rank[root]
  {
    var item := toExpand[0];
    assert item in enqueued;
    forall s | s in cf[item] && s != item
      ensures s !in enqueued && s in openNodes - {item} && rank[s] < rank[root]
    {
      assert rank[s] < rank[item];
    }
  }

  lemma {:induction false} ExpandShape(cf: ObjMap, rank: map<Obj, nat>, root: Obj, openNodes: set<Obj>,
                                       toExpand: seq<Obj>, graph: ObjMap, enqueued: set<Obj>,
                                       successors: set<Obj>, batch: seq<Obj>)
    requires QueueShape(cf, rank, root, openNodes, toExpand, graph, enqueued)
    requires |toExpand| > 0
    requires KeptChildren(cf, openNodes - {toExpand[0]}, toExpand[0], successors, batch)
    ensures QueueShape(cf, rank, root, openNodes - {toExpand[0]}, toExpand[1..] + batch,
                       graph[toExpand[0] := successors], enqueued + successors)
  {
    var item := toExpand[0];
    var open' := openNodes - {item};
    var queue' := toExpand[1..] + batch;
    var enqueued' := enqueued + successors;
    KeptChildrenFresh(cf, rank, root, openNodes, toExpand, graph, enqueued);
    forall i | 0 <= i < |queue'|
      ensures queue'[i] in open' && queue'[i] in enqueued'
    {
      if i < |toExpand| - 1 {
        assert queue'[i] == toExpand[i + 1];
      } else {
        assert queue'[i] in batch;
      }
    }
    forall i, j | 0 <= i < j < |queue'|
      ensures queue'[i] != queue'[j]
    {
      if j < |toExpand| - 1 {
        assert queue'[j] == toExpand[j + 1];
      } else if i >= |toExpand| - 1 {
        assert queue'[i] == batch[i - |toExpand| + 1];
      } else {
        assert queue'[i] in enqueued;
        assert queue'[j] in batch;
      }
    }
    forall x, p | x in enqueued' && x != root && p in open' && p != x
      ensures x !in cf[p]
    {
      if x in successors {
        assert !SharedWithOpen(cf, open', x);
      }
    }
  }

  lemma {:induction false} ExpandGraph(cf: ObjMap, rank: map<Obj, nat>, root: Obj, openNodes: set<Obj>,
                                       toExpand: seq<Obj>, graph: ObjMap, enqueued: set<Obj>,
                                       successors: set<Obj>, batch: seq<Obj>)
    requires QueueShape(cf, rank, root, openNodes, toExpand, graph, enqueued)
    requires GraphSoFar(cf, graph)
    requires |toExpand| > 0
    requires KeptChildren(cf, openNodes - {toExpand[0]}, toExpand[0], successors, batch)
    ensures GraphSoFar(cf, graph[toExpand[0] := successors])
  {
    var item := toExpand[0];
    var open' := openNodes - {item};
    var graph' := graph[item := successors];
    KeptChildrenFresh(cf, rank, root, openNodes, toExpand, graph, enqueued);
    assert item !in graph;
    forall x, c, s | x in graph' && x in cf && c in graph'[x] && s in cf && s in cf[x] && s != x && s != c
      ensures c !in cf[s]
    {
      if x == item {
        assert s in open';
        assert !SharedWithOpen(cf, open', c);
      }
    }
    forall x, c, p | x in graph' && c in graph'[x] && p in cf && p != c && c in cf[p]
      ensures p in graph'
    {
      if x == item {
        assert !SharedWithOpen(cf, open', c);
      }
    }
    forall x, c | x in graph' && x in cf && c in cf[x] && c != x && c !in graph'[x]
      ensures exists p :: p in cf && p != x && p != c && c in cf[p]
    {
      if x == item {
        assert SharedWithOpen(cf, open', c);
      }
    }
  }

  lemma {:induction false} ExpandCovers(cf: ObjMap, rank: map<Obj, nat>, root: Obj, openNodes: set<Obj>,
                                        toExpand: seq<Obj>, graph: ObjMap, enqueued: set<Obj>,
                                        successors: set<Obj>, batch: seq<Obj>)
    requires QueueShape(cf, rank, root, openNodes, toExpand, graph, enqueued)
    requires QueueCovers(root, toExpand, graph, enqueued)
    requires |toExpand| > 0
    requires KeptChildren(cf, openNodes - {toExpand[0]}, toExpand[0], successors, batch)
    ensures QueueCovers(root, toExpand[1..] + batch, graph[toExpand[0] := successors], enqueued + successors)
  {
    var item := toExpand[0];
    var queue' := toExpand[1..] + batch;
    var graph' := graph[item := successors];
    var enqueued' := enqueued + successors;
    assert item !in graph;
    KeptChildrenFresh(cf, rank, root, openNodes, toExpand, graph, enqueued);
    ParentsStillShown(root, graph, item, successors, enqueued, graph');
    forall x | x in graph'
      ensures root !in graph'[x]
    {
      if x == item {
        assert root !in successors;
      }
    }
    ChildrenStillCovered(toExpand, graph, successors, batch, graph', queue');
  }

  /** Expanding a node that is not yet in the graph keeps a parent for every
      node queued so far, and gives the new children the expanded node. */
  lemma {:induction false} ParentsStillShown(root: Obj, graph: ObjMap, item: Obj, successors: set<Obj>,
                                             enqueued: set<Obj>, graph': ObjMap)
    requires item !in graph && graph' == graph[item := successors]
    requires forall x :: x in enqueued && x != root ==> exists p :: p in graph && x in graph[p]
    ensures forall x :: x in enqueued + successors && x != root ==> exists p :: p in graph' && x in graph'[p]
  {
    forall x | x in enqueued + successors && x != root
      ensures exists p :: p in graph' && x in graph'[p]
    {
      if x in successors {
        assert item in graph' && x in graph'[item];
      } else {
        var p :| p in graph && x in graph[p];
        assert p in graph' && x in graph'[p];
      }
    }
  }

  /** After expanding the head of the queue, every child in the graph is
      still expanded or waiting: the head's children join the queue's tail. */
  lemma {:induction false} ChildrenStillCovered(toExpand: seq<Obj>, graph: ObjMap, successors: set<Obj>, batch: seq<Obj>,
                                                graph': ObjMap, queue': seq<Obj>)
    requires |toExpand| > 0
    requires graph' == graph[toExpand[0] := successors] && queue' == toExpand[1..] + batch
    requires forall x, c :: x in graph && c in graph[x] ==> c in graph || c in toExpand
    requires forall c :: c in batch <==> c in successors
    ensures forall x, c :: x in graph' && c in graph'[x] ==> c in graph' || c in queue'
  {
    var item := toExpand[0];
    forall x, c | x in graph' && c in graph'[x]
      ensures c in graph' || c in queue'
    {
      if x == item {
        assert c in batch;
      } else if c !in graph {
        assert c in toExpand;
        if c != item {
          var i :| 0 <= i < |toExpand| && toExpand[i] == c;
          assert queue'[i - 1] == c;
        }
      }
    }
  }

  /** The candidate loop (ObjectGraphUtil.cs:48-57). */
  method KeepUnshared(cf: ObjMap, openNodes: set<Obj>, item: Obj) returns (successors: set<Obj>, batch: seq<Obj>)
    requires item in cf && openNodes <= cf.Keys
    ensures KeptChildren(cf, openNodes, item, successors, batch)
  {
    var candidates := cf[item] - {item};
    successors := {};
    batch := [];
    while candidates != {}
      invariant candidates <= cf[item] - {item}
      invariant forall c :: c in successors <==>
        c in cf[item] && c != item && c !in candidates && !SharedWithOpen(cf, openNodes, c)
      invariant forall c :: c in batch <==> c in successors
      invariant forall i, j :: 0 <= i < j < |batch| ==> batch[i] != batch[j]
      decreases candidates
    {
      var candidate :| candidate in candidates;
      candidates := candidates - {candidate};
      if SharedWithOpen(cf, openNodes, candidate) {
        continue;
      }
      successors := successors + {candidate};
      batch := batch + [candidate];
    }
  }

  /** With the queue empty, the loop invariant gives the reduction. */
  lemma {:induction false} QueueDone(cf: ObjMap, root: Obj, graph: ObjMap, enqueued: set<Obj>)
    requires graph.Keys <= cf.Keys && graph.Keys <= enqueued
    requires GraphSoFar(cf, graph)
    requires QueueCovers(root, [], graph, enqueued)
    ensures Reduced(cf, root, graph)
  {
    assert Reached(graph, root) by {
      forall x | x in graph && x != root
        ensures exists p :: p in graph && x in graph[p]
      {
        assert x in enqueued;
      }
    }
  }

  /** Before the first expansion only the root is queued. */
  lemma {:induction false} QueueStart(cf: ObjMap, rank: map<Obj, nat>, root: Obj)
    requires root in cf && Closed(cf) && Ranked(cf, rank)
    ensures QueueInvariant(cf, rank, root, cf.Keys, [root], map[], {root})
  {
  }

  /** One turn of the queue loop keeps its invariant and closes the head. */
  lemma {:induction false} ExpandStep(cf: ObjMap, rank: map<Obj, nat>, root: Obj, openNodes: set<Obj>,
                                      toExpand: seq<Obj>, graph: ObjMap, enqueued: set<Obj>,
                                      successors: set<Obj>, batch: seq<Obj>)
    requires QueueInvariant(cf, rank, root, openNodes, toExpand, graph, enqueued)
    requires |toExpand| > 0
    requires KeptChildren(cf, openNodes - {toExpand[0]}, toExpand[0], successors, batch)
    ensures QueueInvariant(cf, rank, root, openNodes - {toExpand[0]}, toExpand[1..] + batch,
                           graph[toExpand[0] := successors], enqueued + successors)
    ensures toExpand[0] in openNodes
  {
    ExpandShape(cf, rank, root, openNodes, toExpand, graph, enqueued, successors, batch);
    ExpandGraph(cf, rank, root, openNodes, toExpand, graph, enqueued, successors, batch);
    ExpandCovers(cf, rank, root, openNodes, toExpand, graph, enqueued, successors, batch);
  }

  /** The queue loop (ObjectGraphUtil.cs:40-61). The rank is a ghost witness
      that the map has no cycles other than self-loops; without it the
      loop need not terminate. */
  method Reduce(cf: ObjMap, root: Obj, ghost rank: map<Obj, nat>) returns (graph: ObjMap)
    requires root in cf
    requires Closed(cf)
    requires Ranked(cf, rank)
    ensures Reduced(cf, root, graph)
  {
    var openNodes := cf.Keys;
    var toExpand := [root];
    graph := map[];
    ghost var enqueued := {root};
    QueueStart(cf, rank, root);
    while |toExpand| > 0
      invariant QueueInvariant(cf, rank, root, openNodes, toExpand, graph, enqueued)
      decreases |openNodes|
    {
      var item := toExpand[0];
      var successors, batch := KeepUnshared(cf, openNodes - {item}, item);
      ExpandStep(cf, rank, root, openNodes, toExpand, graph, enqueued, successors, batch);
      openNodes := openNodes - {item};
      graph := graph[item := successors];
      toExpand := toExpand[1..] + batch;
      enqueued := enqueued + successors;
    }
    QueueDone(cf, root, graph, enqueued);
  }

  /** The reduced graph has exactly one root: the graph root. */
  lemma {:induction false} ReducedSingleRoot(cf: ObjMap, root: Obj, graph: ObjMap)
    requires Reduced(cf, root, graph)
    ensures GetRoots(graph) == {root}
  {
    var roots := GetRoots(graph);
    forall x | x in graph && x != root
      ensures x !in roots
    {
      var p :| p in graph && x in graph[p];
    }
    assert root in roots;
  }

  /** A rank for the nodes of a collapse: the size of the successor set the
      node's keys share, and one more than any of those for a node holding
      no key. */
  ghost function Rank(m: EntityMap, o: Obj): nat {
    match o
    case Leaf(e) => if e in m then |m[e]| else |m.Keys| + 1
    case Rep(_, members, _, _) =>
      var held := members * m.Keys;
      if held == {} then |m.Keys| + 1 else var e :| e in held; |m[e]|
  }

  lemma {:induction false} RankOfSubstitute(m: EntityMap, replacement: map<Entity, Obj>, r: ObjMap, k: Entity)
    requires IsCollapse(m, replacement, r) && k in m
    ensures Rank(m, Substitute(replacement, k)) == |m[k]|
  {
    var o := Substitute(replacement, k);
    if o.Rep? {
      RepMembers(m, replacement, r, k, k);
      var e :| e in o.members * m.Keys && Rank(m, o) == |m[e]|;
      RepMembers(m, replacement, r, k, e);
      CollapseSeparates(m, replacement, r, e, k);
    } else {
      CollapseAt(m, replacement, r, k);
    }
  }

  lemma {:induction false} ProperSubsetCard<T>(a: set<T>, b: set<T>)
    requires a < b
    ensures |a| < |b|
  {
    var d := b - a;
    assert a + d == b && a * d == {};
    assert |b| == |a| + |d|;
  }

  /** Successors of a transitive map are keys, and their successor sets
      are no larger. */
  lemma {:induction false} TransitiveRank(m: EntityMap, k: Entity, y: Entity)
    requires Transitive(m) && k in m && y in m[k]
    ensures y in m && |m[y]| <= |m[k]|
    ensures m[y] != m[k] ==> |m[y]| < |m[k]|
  {
    SubsetCard(m[y], m[k]);
    if m[y] != m[k] {
      ProperSubsetCard(m[y], m[k]);
    }
  }

  /** An edge of the collapse of a transitive map leads to a key whose rank
      is smaller, unless it is a self-loop. */
  lemma {:induction false} CollapseEdgeRank(m: EntityMap, replacement: map<Entity, Obj>, r: ObjMap, x: Obj, c: Obj)
    requires Transitive(m) && IsCollapse(m, replacement, r)
    requires x in r && c in r[x]
    ensures c in r
    ensures c != x ==> Rank(m, c) < Rank(m, x)
  {
    CollapseKeyOrigin(m, replacement, r, x);
    var k :| k in m && Substitute(replacement, k) == x;
    CollapseAt(m, replacement, r, k);
    var y :| y in m[k] && Substitute(replacement, y) == c;
    TransitiveRank(m, k, y);
    CollapseAt(m, replacement, r, y);
    RankOfSubstitute(m, replacement, r, k);
    RankOfSubstitute(m, replacement, r, y);
    if c != x {
      CollapseSeparates(m, replacement, r, y, k);
    }
  }

  lemma {:induction false} CollapseRankBound(m: EntityMap, replacement: map<Entity, Obj>, r: ObjMap, o: Obj)
    requires Transitive(m) && IsCollapse(m, replacement, r) && o in r
    ensures Rank(m, o) <= |m.Keys|
  {
    CollapseKeyOrigin(m, replacement, r, o);
    var k :| k in m && Substitute(replacement, k) == o;
    RankOfSubstitute(m, replacement, r, k);
    SuccessorsBound(m, k);
  }

  lemma {:induction false} SuccessorsBound(m: EntityMap, k: Entity)
    requires Transitive(m) && k in m
    ensures |m[k]| <= |m.Keys|
  {
    forall z | z in m[k] ensures z in m.Keys { }
    SubsetCard(m[k], m.Keys);
  }

  lemma {:induction false} CollapseEdgesRank(m: EntityMap, replacement: map<Entity, Obj>, r: ObjMap)
    requires Transitive(m) && IsCollapse(m, replacement, r)
    ensures forall x, c :: x in r && c in r[x] ==> c in r && (c != x ==> Rank(m, c) < Rank(m, x))
  {
    forall x, c | x in r && c in r[x]
      ensures c in r && (c != x ==> Rank(m, c) < Rank(m, x))
    {
      CollapseEdgeRank(m, replacement, r, x, c);
    }
  }

  lemma {:induction false} CollapseRanksBound(m: EntityMap, replacement: map<Entity, Obj>, r: ObjMap)
    requires Transitive(m) && IsCollapse(m, replacement, r)
    ensures forall o :: o in r ==> Rank(m, o) <= |m.Keys|
  {
    forall o | o in r
      ensures Rank(m, o) <= |m.Keys|
    {
      CollapseRankBound(m, replacement, r, o);
    }
  }

  /** The collapse of a transitive map is closed, and ranked by `Rank`. */
  lemma {:induction false} CollapseRanked(m: EntityMap, replacement: map<Entity, Obj>, r: ObjMap)
    requires Transitive(m) && IsCollapse(m, replacement, r)
    ensures Closed(r)
    ensures Ranked(r, map o | o in r :: Rank(m, o))
  {
    CollapseEdgesRank(m, replacement, r);
    RankedByRank(m, r);
  }

  lemma {:induction false} RankedByRank(m: EntityMap, r: ObjMap)
    requires forall x, c :: x in r && c in r[x] ==> c in r && (c != x ==> Rank(m, c) < Rank(m, x))
    ensures Closed(r)
    ensures Ranked(r, map o | o in r :: Rank(m, o))
  {
  }

  /** Adding a fresh root whose successors are keys, and whose rank is
      above every other, keeps a map closed and ranked. */
  lemma {:induction false} AddFreshRoot(r: ObjMap, rank: map<Obj, nat>, gr: Obj, roots: set<Obj>, top: nat)
    requires Closed(r) && Ranked(r, rank)
    requires gr !in r && roots <= r.Keys
    requires forall o :: o in r ==> rank[o] < top
    ensures Closed(r[gr := roots])
    ensures Ranked(r[gr := roots], rank[gr := top])
  {
  }

  /** The collapse with a fresh root over its roots is closed, and ranked
      by `Rank` with the fresh root above every key. */
  lemma {:induction false} FreshRootRanked(m: EntityMap, replacement: map<Entity, Obj>, r: ObjMap, gr: Obj, roots: set<Obj>)
    requires Transitive(m) && IsCollapse(m, replacement, r) && gr !in r && roots <= r.Keys
    ensures Closed(r[gr := roots])
    ensures Ranked(r[gr := roots], (map o | o in r :: Rank(m, o))[gr := |m.Keys| + 1])
  {
    CollapseRanked(m, replacement, r);
    CollapseRanksBound(m, replacement, r);
    AddFreshRoot(r, map o | o in r :: Rank(m, o), gr, roots, |m.Keys| + 1);
  }

  /** A representative whose identity is above every identity the collapse
      handed out is not one of its keys. */
  lemma {:induction false} FreshRepNotKey(m: EntityMap, replacement: map<Entity, Obj>, r: ObjMap, o: Obj, n: nat)
    requires IsCollapse(m, replacement, r)
    requires forall k :: k in replacement ==> replacement[k].Rep? && replacement[k].id < n
    requires o.Rep? && o.id == n
    ensures o !in r
  {
    forall k | k in m
      ensures Substitute(replacement, k) != o
    {
    }
    CollapseKeyOrigin(m, replacement, r, o);
  }

  /** How the graph root is found: the root object itself when it is a key,
      otherwise the (only) representative that holds it; both exist exactly
      when the root object is a key of the map before collapsing. */
  lemma {:induction false} RootResolution(m: EntityMap, replacement: map<Entity, Obj>, r: ObjMap, root: Entity)
    requires IsCollapse(m, replacement, r)
    ensures Leaf(root) in r ==> root in m && Substitute(replacement, root) == Leaf(root)
    ensures forall o :: o in r && o.Rep? && root in o.members ==> root in m && o == Substitute(replacement, root)
    ensures root in m ==> Substitute(replacement, root) in r
    ensures root in m ==>
      (Substitute(replacement, root) == Leaf(root) ||
       (Substitute(replacement, root).Rep? && root in Substitute(replacement, root).members))
  {
    if Leaf(root) in r {
      CollapseKeyOrigin(m, replacement, r, Leaf(root));
      var k :| k in m && Substitute(replacement, k) == Leaf(root);
      CollapseAt(m, replacement, r, k);
    }
    forall o | o in r && o.Rep? && root in o.members
      ensures root in m && o == Substitute(replacement, root)
    {
      RepContainingUnique(m, replacement, r, root, o);
    }
    if root in m {
      CollapseAt(m, replacement, r, root);
      if Substitute(replacement, root).Rep? {
        RepMembers(m, replacement, r, root, root);
      }
    }
  }

  /** A map before collapsing and its collapse are empty together. */
  lemma {:induction false} CollapseEmpty(m: EntityMap, replacement: map<Entity, Obj>, r: ObjMap)
    requires IsCollapse(m, replacement, r)
    ensures r == map[] <==> m == map[]
  {
    if m != map[] {
      var k :| k in m;
      CollapseAt(m, replacement, r, k);
    }
  }

  /** A graph root found among the keys is the root object's substitute. */
  lemma {:induction false} FoundRoot(m: EntityMap, replacement: map<Entity, Obj>, r: ObjMap, root: Entity, gr: Obj)
    requires IsCollapse(m, replacement, r)
    requires gr == Leaf(root) || (gr.Rep? && root in gr.members)
    requires gr in r
    ensures root in m && gr == Substitute(replacement, root)
  {
    RootResolution(m, replacement, r, root);
  }

  /** No key stands for the root object exactly when it was not scanned. */
  lemma {:induction false} RootNotFound(m: EntityMap, replacement: map<Entity, Obj>, r: ObjMap, root: Entity)
    requires IsCollapse(m, replacement, r)
    requires Leaf(root) !in r
    requires forall o :: o in r && o.Rep? ==> root !in o.members
    ensures root !in m
  {
    RootResolution(m, replacement, r, root);
  }

  /** The graph root of ObjectGraphUtil.cs:20-38: the root object's own
      node when it is a key, else the representative that holds it, else a
      fresh representative named after it whose successors are the roots of
      the collapse. */
  method ResolveGraphRoot(scan: ObjMap, root: Entity, nextId: nat, ghost m: EntityMap, ghost replacement: map<Entity, Obj>)
    returns (gr: Obj, graphMap: ObjMap, nextId': nat, ghost rank: map<Obj, nat>)
    requires Transitive(m) && IsCollapse(m, replacement, scan)
    requires forall k :: k in replacement ==> replacement[k].Rep? && replacement[k].id < nextId
    ensures root in m ==> gr == Substitute(replacement, root) && graphMap == scan && nextId' == nextId
    ensures root !in m ==>
      && gr.Rep? && gr.id == nextId && gr.members == {root}
      && gr.anchor == (if IsGameObject(root) then Some(root) else None)
      && gr.name == root.name
      && gr !in scan
      && graphMap == scan[gr := GetRoots(scan)]
      && nextId' == nextId + 1
    ensures gr in graphMap && Closed(graphMap) && Ranked(graphMap, rank)
  {
    var holders := set o | o in scan && o.Rep? && root in o.members;
    rank := map o | o in scan :: Rank(m, o);
    if Leaf(root) in scan || holders != {} {
      if Leaf(root) in scan {
        gr := Leaf(root);
      } else {
        gr :| gr in holders;
      }
      FoundRoot(m, replacement, scan, root, gr);
      CollapseRanked(m, replacement, scan);
      graphMap, nextId' := scan, nextId;
    } else {
      // the root object is not in the scan (a scene is such a root)
      forall o | o in scan && o.Rep?
        ensures root !in o.members
      {
        assert o in holders <==> root in o.members;
      }
      RootNotFound(m, replacement, scan, root);
      SingletonCreateOk(nextId, root);
      var created := Create(nextId, {root}).value;
      gr := created.(name := root.name);
      FreshRepNotKey(m, replacement, scan, gr, nextId);
      FreshRootRanked(m, replacement, scan, gr, GetRoots(scan));
      graphMap := scan[gr := GetRoots(scan)];
      rank := rank[gr := |m.Keys| + 1];
      nextId' := nextId + 1;
    }
  }

  /** The representative created for a root the scan does not hold
      (ObjectGraphUtil.cs:34-35): its only member is the root, it is anchored
      as CycleRep.Create anchors a single object, and it takes the root's name. */
  ghost predicate FreshRootFor(root: Entity, o: Obj) {
    && o.Rep? && o.members == {root}
    && o.anchor == (if IsGameObject(root) then Some(root) else None)
    && o.name == root.name
  }

  /** `cf` is the collapse `collapsed` of `m` made ready for reduction from
      `graphRoot`, the node resolved for `root`: the root's substitute when the
      scan holds the root, otherwise a fresh representative of the root added
      over the collapse's roots. */
  ghost predicate RootedAt(m: EntityMap, root: Entity, replacement: map<Entity, Obj>, collapsed: ObjMap,
                           cf: ObjMap, graphRoot: Obj)
  {
    && IsCollapse(m, replacement, collapsed)
    && (root in m ==> graphRoot == Substitute(replacement, root) && cf == collapsed)
    && (root !in m ==>
          && FreshRootFor(root, graphRoot)
          && graphRoot !in collapsed
          && cf == collapsed[graphRoot := GetRoots(collapsed)])
  }

  ghost predicate RootedCollapse(m: EntityMap, root: Entity, cf: ObjMap, graphRoot: Obj) {
    exists replacement, collapsed :: RootedAt(m, root, replacement, collapsed, cf, graphRoot)
  }

  /** `g` is a graph GetDependencyGraph may return for `root`: the empty map
      for an empty scan, otherwise the reduction, from the node resolved for
      `root`, of a collapse of the scan. */
  ghost predicate DependencyGraphOf(root: Entity, targets: set<Entity>, deps: Entity -> set<Entity>, g: ObjMap) {
    var m := GetConnectedDependencies(root, targets, deps);
    && !CollapseFails(m)
    && (m == map[] ==> g == map[])
    && (m != map[] ==> exists cf, graphRoot :: RootedCollapse(m, root, cf, graphRoot) && Reduced(cf, graphRoot, g))
  }

  /** The components GetDependencyGraph builds witness DependencyGraphOf. */
  lemma {:induction false} DependencyGraphWitness(root: Entity, targets: set<Entity>, deps: Entity -> set<Entity>,
                                                  replacement: map<Entity, Obj>, collapsed: ObjMap,
                                                  cf: ObjMap, graphRoot: Obj, g: ObjMap)
    requires GetConnectedDependencies(root, targets, deps) != map[]
    requires !CollapseFails(GetConnectedDependencies(root, targets, deps))
    requires RootedAt(GetConnectedDependencies(root, targets, deps), root, replacement, collapsed, cf, graphRoot)
    requires Reduced(cf, graphRoot, g)
    ensures DependencyGraphOf(root, targets, deps, g)
  {
    assert RootedCollapse(GetConnectedDependencies(root, targets, deps), root, cf, graphRoot);
  }

  /** A scan's graph has one root, and that root stands for the scanned
      object: its own node, the representative of its group, or the fresh
      representative of it alone. */
  lemma {:induction false} ScanRootHoldsTarget(root: Entity, targets: set<Entity>, deps: Entity -> set<Entity>, g: ObjMap)
    requires DependencyGraphOf(root, targets, deps, g) && g != map[]
    ensures |GetRoots(g)| == 1
    ensures forall o :: o in GetRoots(g) ==> o == Leaf(root) || (o.Rep? && root in o.members)
  {
    var m := GetConnectedDependencies(root, targets, deps);
    var cf, graphRoot :| RootedCollapse(m, root, cf, graphRoot) && Reduced(cf, graphRoot, g);
    var replacement, collapsed :| RootedAt(m, root, replacement, collapsed, cf, graphRoot);
    ResolvedRootHoldsTarget(m, root, replacement, collapsed, cf, graphRoot);
    ReducedSingleRoot(cf, graphRoot, g);
    SingleRoot(g, graphRoot);
  }

  /** A graph whose only node is some other object's node is never the scan
      of `root`: the scan is reduced from the node resolved for `root`. */
  lemma {:induction false} OtherRootRejected(root: Entity, other: Entity, targets: set<Entity>,
                                             deps: Entity -> set<Entity>)
    requires other != root
    ensures !DependencyGraphOf(root, targets, deps, map[Leaf(other) := {}])
  {
    var g: ObjMap := map[Leaf(other) := {}];
    if DependencyGraphOf(root, targets, deps, g) {
      assert Leaf(other) in g && Leaf(other) in GetRoots(g);
      ScanRootHoldsTarget(root, targets, deps, g);
    }
  }

  lemma {:induction false} SingleRoot(g: ObjMap, x: Obj)
    requires GetRoots(g) == {x}
    ensures |GetRoots(g)| == 1 && forall o :: o in GetRoots(g) ==> o == x
  {
  }

  /** The node resolved for `root` stands for it. */
  lemma {:induction false} ResolvedRootHoldsTarget(m: EntityMap, root: Entity, replacement: map<Entity, Obj>,
                                                   collapsed: ObjMap, cf: ObjMap, graphRoot: Obj)
    requires RootedAt(m, root, replacement, collapsed, cf, graphRoot)
    ensures graphRoot == Leaf(root) || (graphRoot.Rep? && root in graphRoot.members)
  {
    if root in m && graphRoot.Rep? {
      RepMembers(m, replacement, collapsed, root, root);
    }
  }

  /** ObjectGraphUtil.GetDependencyGraph: the collapsed scan of `root`,
      reduced from the graph root. */
  method GetDependencyGraph(root: Entity, targets: set<Entity>, deps: Entity -> set<Entity>, nextId: nat)
    returns (r: Result<ObjMap>, nextId': nat, ghost replacement: map<Entity, Obj>, ghost collapsed: ObjMap,
             ghost cycleFree: ObjMap, ghost graphRoot: Obj)
    requires TransitiveOracle(deps, root)
    ensures var m := GetConnectedDependencies(root, targets, deps);
      && (r.Err? <==> CollapseFails(m))
      && (r.Ok? ==> IsCollapse(m, replacement, collapsed))
      && (r.Ok? && m == map[] ==> r.value == map[])
    ensures var m := GetConnectedDependencies(root, targets, deps);
      r.Ok? && root in m ==> graphRoot == Substitute(replacement, root) && cycleFree == collapsed
    ensures var m := GetConnectedDependencies(root, targets, deps);
      r.Ok? && m != map[] && root !in m ==>
        && graphRoot.Rep? && graphRoot.id >= nextId && graphRoot.members == {root}
        && graphRoot.anchor == (if IsGameObject(root) then Some(root) else None)
        && graphRoot.name == root.name
        && graphRoot !in collapsed
        && cycleFree == collapsed[graphRoot := GetRoots(collapsed)]
    ensures var m := GetConnectedDependencies(root, targets, deps);
      r.Ok? && m != map[] ==> Reduced(cycleFree, graphRoot, r.value)
    ensures r.Err? ==> r.error == AmbiguousGameObject
    ensures r.Ok? ==> DependencyGraphOf(root, targets, deps, r.value)
    ensures r.Ok? ==> |GetRoots(r.value)| == (if r.value == map[] then 0 else 1)
    ensures nextId <= nextId'
  {
    ghost var m := GetConnectedDependencies(root, targets, deps);
    var cf;
    cf, replacement, nextId' := GetCycleFreeDependencies(root, targets, deps, nextId);
    collapsed, cycleFree, graphRoot := map[], map[], Leaf(root);
    if cf.Err? {
      r := Err(cf.error);
      return;
    }
    var scan := cf.value;
    collapsed := scan;
    CollapseEmpty(m, replacement, collapsed);
    if scan == map[] {
      r := Ok(map[]);
      return;
    }
    ConnectedTransitive(root, targets, deps);
    var gr, graphMap;
    ghost var rank;
    gr, graphMap, nextId', rank := ResolveGraphRoot(scan, root, nextId', m, replacement);
    var graph := Reduce(graphMap, gr, rank);
    ReducedSingleRoot(graphMap, gr, graph);
    assert |GetRoots(graph)| == |{gr}| == 1;
    DependencyGraphWitness(root, targets, deps, replacement, collapsed, graphMap, gr, graph);
    r := Ok(graph);
    cycleFree, graphRoot := graphMap, gr;
  }
}
