/** ObjectDependencyUtil.cs: the per-root scan and merge fold over a scene's
    root objects, the conversion of an object graph into a graph of display
    nodes with its edges flipped, and the in-place graph union AddGraph; plus
    the display node record of SceneObjectNode.cs. */
module ObjectDependencyUtil {
  import opened CycleReps
  import opened ObjectGraphUtil
  import opened CycleFree
  import opened DependencyGraph
  import opened GraphMerge

  /** ObjectNode: a display node. `id` stands for the node's reference
      identity; `caption` is its label (`label` is a Dafny keyword); `objs`
      are the host objects selecting the node selects. */
  datatype ObjectNode = ObjectNode(id: nat, caption: string, tooltip: string, objs: seq<Entity>, isSceneObject: bool)

  /** A dictionary from nodes to successor sets that is updated in place. */
  class Graph<T(==)> {
    var edges: map<T, set<T>>

    constructor ()
      ensures edges == map[]
    {
      edges := map[];
    }

    /** AddGraph: every key of `added` is inserted with its set, or its set
        is united into the existing one. */
    method AddGraph(added: map<T, set<T>>)
      modifies this
      ensures edges == Added(old(edges), added)
    {
      ghost var start := edges;
      var todo := added.Keys;
      while todo != {}
        invariant todo <= added.Keys
        invariant edges == Added(start, added - todo)
        decreases todo
      {
        var k :| k in todo;
        AddedStep(start, added, todo, k);
        if k !in edges {
          edges := edges[k := added[k]];
        } else {
          edges := edges[k := edges[k] + added[k]];
        }
        todo := todo - {k};
      }
      assert added - {} == added;
    }
  }

  /** What AddGraph leaves in `g` after adding `a`. */
  ghost function Added<T>(g: map<T, set<T>>, a: map<T, set<T>>): map<T, set<T>> {
    map k | k in g.Keys + a.Keys ::
      if k in a then (if k in g then g[k] + a[k] else a[k]) else g[k]
  }

  /** One more key of `added` processed. */
  lemma {:induction false} AddedStep<T>(g: map<T, set<T>>, added: map<T, set<T>>, todo: set<T>, k: T)
    requires k in todo && todo <= added.Keys
    ensures k in Added(g, added - todo) <==> k in g
    ensures k in g ==> Added(g, added - todo)[k] == g[k]
    ensures Added(g, added - (todo - {k})) ==
      Added(g, added - todo)[k := if k in g then g[k] + added[k] else added[k]]
  {
    var before := Added(g, added - todo);
    var after := Added(g, added - (todo - {k}));
    var expected := before[k := if k in g then g[k] + added[k] else added[k]];
    assert after.Keys == expected.Keys;
    forall x | x in after
      ensures after[x] == expected[x]
    {
    }
  }

  /** The contents AddGraph leaves: the old keys plus the added keys; an
      added key's set is united into the old one, or taken as it is when the
      key is new; every other key keeps its set. */
  lemma {:induction false} AddedContents<T>(g: map<T, set<T>>, a: map<T, set<T>>)
    ensures Added(g, a).Keys == g.Keys + a.Keys
    ensures forall k :: k in a && k in g ==> Added(g, a)[k] == g[k] + a[k]
    ensures forall k :: k in a && k !in g ==> Added(g, a)[k] == a[k]
    ensures forall k :: k in g && k !in a ==> Added(g, a)[k] == g[k]
  {
  }

  /** The graph only grows: no key is lost and no edge is dropped. */
  lemma {:induction false} AddedGrows<T>(g: map<T, set<T>>, a: map<T, set<T>>)
    ensures forall k :: k in g ==> k in Added(g, a) && g[k] <= Added(g, a)[k]
    ensures forall k :: k in a ==> k in Added(g, a) && a[k] <= Added(g, a)[k]
  {
  }

  /** Adding an empty graph changes nothing. */
  lemma {:induction false} AddEmpty<T>(g: map<T, set<T>>)
    ensures Added(g, map[]) == g
  {
    assert Added(g, map[]).Keys == g.Keys;
  }

  /** Adding the same graph twice leaves what adding it once does. */
  lemma {:induction false} AddTwice<T>(g: map<T, set<T>>, a: map<T, set<T>>)
    ensures Added(Added(g, a), a) == Added(g, a)
  {
    var once := Added(g, a);
    var twice := Added(once, a);
    assert twice.Keys == once.Keys;
    forall k | k in twice
      ensures twice[k] == once[k]
    {
      if k in a {
        assert twice[k] == once[k] + a[k];
        assert a[k] <= once[k];
      }
    }
  }

  /** The objects that occur in some successor set. */
  function Referenced(objGraph: ObjMap): set<Obj> {
    set k, x | k in objGraph && x in objGraph[k] :: x
  }

  /** The keys whose successor set holds `x`. */
  function Referrers(objGraph: ObjMap, x: Obj): set<Obj> {
    set k | k in objGraph && x in objGraph[k]
  }

  ghost predicate InjectiveOn(getNode: Obj -> ObjectNode, objs: set<Obj>) {
    forall x, y :: x in objs && y in objs && getNode(x) == getNode(y) ==> x == y
  }

  /** ObjectGraphToObjectNodeGraph: each referenced object's node is mapped
      to the nodes of the objects that reference it. Building the result
      dictionary throws when two referenced objects share a node, so the
      node function must keep them apart. */
  function ObjectGraphToObjectNodeGraph(objGraph: ObjMap, getNode: Obj -> ObjectNode): (r: map<ObjectNode, set<ObjectNode>>)
    requires InjectiveOn(getNode, Referenced(objGraph))
    ensures r.Keys == set x | x in Referenced(objGraph) :: getNode(x)
    ensures forall k, x :: k in objGraph && x in objGraph[k] ==> getNode(x) in r && getNode(k) in r[getNode(x)]
  {
    map x | x in Referenced(objGraph) :: getNode(x) := set k | k in Referrers(objGraph, x) :: getNode(k)
  }

  /** With nodes kept apart on every object of the graph, the edges are
      exactly the flipped object edges, and an object nobody references
      never becomes a key. */
  lemma {:induction false} EdgesFlipped(objGraph: ObjMap, getNode: Obj -> ObjectNode)
    requires InjectiveOn(getNode, objGraph.Keys + Referenced(objGraph))
    ensures forall k, x :: k in objGraph && x in Referenced(objGraph) ==>
      (getNode(k) in ObjectGraphToObjectNodeGraph(objGraph, getNode)[getNode(x)] <==> x in objGraph[k])
    ensures forall o :: o in objGraph && o !in Referenced(objGraph) ==>
      getNode(o) !in ObjectGraphToObjectNodeGraph(objGraph, getNode)
  {
    var r := ObjectGraphToObjectNodeGraph(objGraph, getNode);
    forall k, x | k in objGraph && x in Referenced(objGraph) && getNode(k) in r[getNode(x)]
      ensures x in objGraph[k]
    {
      FlippedAt(objGraph, getNode, x, r);
      var k' :| k' in Referrers(objGraph, x) && getNode(k') == getNode(k);
      assert k' == k;
    }
    forall o | o in objGraph && o !in Referenced(objGraph)
      ensures getNode(o) !in r
    {
    }
  }

  /** The successors of a referenced object's node are the nodes of its
      referrers. */
  lemma {:induction false} FlippedAt(objGraph: ObjMap, getNode: Obj -> ObjectNode, x: Obj, r: map<ObjectNode, set<ObjectNode>>)
    requires InjectiveOn(getNode, Referenced(objGraph))
    requires r == ObjectGraphToObjectNodeGraph(objGraph, getNode)
    requires x in Referenced(objGraph)
    ensures r[getNode(x)] == set k | k in Referrers(objGraph, x) :: getNode(k)
  {
  }

  /** One step of the fold: `scan` is the dependency graph of `root`, and
      `next` is `acc` with it merged in under `matches`. */
  ghost predicate FoldStep(root: Entity, targets: set<Entity>, deps: Entity -> set<Entity>,
                           scan: ObjMap, matches: map<Obj, Obj>, acc: ObjMap, next: ObjMap)
  {
    && DependencyGraphOf(root, targets, deps, scan)
    && ValidMatches(acc, scan, matches)
    && next == Merged(acc, scan, matches)
  }

  /** The fold of the scene scan: `accs[0]` is the empty map and each
      `accs[i + 1]` merges the graph of the i-th root into `accs[i]`. */
  ghost predicate SceneFold(rootGOs: seq<Entity>, targets: set<Entity>, deps: Entity -> set<Entity>,
                            scans: seq<ObjMap>, matchSeq: seq<map<Obj, Obj>>, accs: seq<ObjMap>)
  {
    && |scans| == |matchSeq| == |rootGOs| && |accs| == |rootGOs| + 1
    && accs[0] == map[]
    && forall i :: 0 <= i < |rootGOs| ==>
      FoldStep(rootGOs[i], targets, deps, scans[i], matchSeq[i], accs[i], accs[i + 1])
  }

  /** Merging one more root's graph extends the fold. */
  lemma {:induction false} SceneFoldStep(rootGOs: seq<Entity>, i: nat, targets: set<Entity>, deps: Entity -> set<Entity>,
                                         scans: seq<ObjMap>, matchSeq: seq<map<Obj, Obj>>, accs: seq<ObjMap>,
                                         g: ObjMap, matches: map<Obj, Obj>, merged: ObjMap)
    requires i < |rootGOs|
    requires SceneFold(rootGOs[..i], targets, deps, scans, matchSeq, accs)
    requires FoldStep(rootGOs[i], targets, deps, g, matches, accs[i], merged)
    ensures SceneFold(rootGOs[..i + 1], targets, deps, scans + [g], matchSeq + [matches], accs + [merged])
  {
    var roots := rootGOs[..i + 1];
    var scans', matchSeq', accs' := scans + [g], matchSeq + [matches], accs + [merged];
    forall j | 0 <= j < |roots|
      ensures FoldStep(roots[j], targets, deps, scans'[j], matchSeq'[j], accs'[j], accs'[j + 1])
    {
      if j < i {
        assert roots[j] == rootGOs[..i][j];
      }
    }
  }

  /** The object graph of a scene (lines 28-34 and 54-60): every root's
      dependency graph merged into the result in order. The first root whose
      scan cannot be collapsed ends the fold with its error. */
  method ScanRoots(rootGOs: seq<Entity>, targets: set<Entity>, deps: Entity -> set<Entity>, nextId: nat)
    returns (r: Result<ObjMap>, nextId': nat,
             ghost scans: seq<ObjMap>, ghost matchSeq: seq<map<Obj, Obj>>, ghost accs: seq<ObjMap>)
    requires forall i :: 0 <= i < |rootGOs| ==> TransitiveOracle(deps, rootGOs[i])
    ensures r.Err? <==> exists i :: 0 <= i < |rootGOs| && CollapseFails(GetConnectedDependencies(rootGOs[i], targets, deps))
    ensures r.Err? ==> r.error == AmbiguousGameObject
    ensures r.Ok? ==> SceneFold(rootGOs, targets, deps, scans, matchSeq, accs) && r.value == accs[|rootGOs|]
    ensures nextId <= nextId'
  {
    var objGraph: ObjMap := map[];
    nextId' := nextId;
    scans, matchSeq, accs := [], [], [objGraph];
    for i := 0 to |rootGOs|
      invariant nextId <= nextId'
      invariant SceneFold(rootGOs[..i], targets, deps, scans, matchSeq, accs)
      invariant objGraph == accs[i]
    {
      var g;
      ghost var replacement, collapsed, cycleFree, graphRoot;
      g, nextId', replacement, collapsed, cycleFree, graphRoot := GetDependencyGraph(rootGOs[i], targets, deps, nextId');
      if g.Err? {
        r := Err(g.error);
        return;
      }
      var merged, matches := MergeGraphs(objGraph, g.value);
      SceneFoldStep(rootGOs, i, targets, deps, scans, matchSeq, accs, g.value, matches, merged);
      scans, matchSeq, accs := scans + [g.value], matchSeq + [matches], accs + [merged];
      objGraph := merged;
    }
    assert rootGOs[..|rootGOs|] == rootGOs;
    FoldNeverFails(rootGOs, targets, deps, scans, matchSeq, accs);
    r := Ok(objGraph);
  }

  /** A completed fold means no root's scan failed to collapse. */
  lemma {:induction false} FoldNeverFails(rootGOs: seq<Entity>, targets: set<Entity>, deps: Entity -> set<Entity>,
                                          scans: seq<ObjMap>, matchSeq: seq<map<Obj, Obj>>, accs: seq<ObjMap>)
    requires SceneFold(rootGOs, targets, deps, scans, matchSeq, accs)
    ensures forall i :: 0 <= i < |rootGOs| ==> !CollapseFails(GetConnectedDependencies(rootGOs[i], targets, deps))
  {
    forall i | 0 <= i < |rootGOs|
      ensures !CollapseFails(GetConnectedDependencies(rootGOs[i], targets, deps))
    {
      assert FoldStep(rootGOs[i], targets, deps, scans[i], matchSeq[i], accs[i], accs[i + 1]);
    }
  }

  /** A scene without root objects scans to the empty graph. */
  lemma {:induction false} NoRootsEmptyFold(targets: set<Entity>, deps: Entity -> set<Entity>,
                                            scans: seq<ObjMap>, matchSeq: seq<map<Obj, Obj>>, accs: seq<ObjMap>)
    requires SceneFold([], targets, deps, scans, matchSeq, accs)
    ensures accs[0] == map[] && |accs| == 1
  {
  }
}
