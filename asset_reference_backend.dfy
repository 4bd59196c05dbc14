/** AssetReferenceBackend.cs: the session that accumulates the reference
    graphs of the scenes scanned for a target, the placeholder node of an
    unreferenced target, the relations it reports and the object a selection
    selects. */
module AssetReferenceBackend {
  import opened CycleReps
  import opened ObjectGraphUtil
  import opened ObjectDependencyUtil
  import opened Relations

  type NodeGraph = map<ObjectNode, set<ObjectNode>>

  const UnreferencedSuffix: string := "\n(unreferenced)"

  /** The node standing for a target no scene references: labelled and
      tooltipped with the target's name and the "(unreferenced)" line,
      selecting the target, not a scene object. */
  function PlaceholderNode(target: Entity, id: nat): (n: ObjectNode)
    ensures n.caption == n.tooltip == target.name + UnreferencedSuffix
    ensures n.objs == [target] && !n.isSceneObject && n.id == id
  {
    var targetNodeName := target.name + UnreferencedSuffix;
    ObjectNode(id, targetNodeName, targetNodeName, [target], false)
  }

  /** Every scan graph has no keys. */
  predicate AllEmpty(sceneGraphs: seq<NodeGraph>) {
    forall i :: 0 <= i < |sceneGraphs| ==> sceneGraphs[i] == map[]
  }

  /** The graphs Init adds: the scan graphs, or the placeholder graph when
      every scan graph is empty. */
  function GraphsToAdd(target: Entity, sceneGraphs: seq<NodeGraph>, dummyId: nat): (r: seq<NodeGraph>)
    ensures AllEmpty(sceneGraphs) ==> r == [map[PlaceholderNode(target, dummyId) := {}]]
    ensures !AllEmpty(sceneGraphs) ==> r == sceneGraphs
  {
    if AllEmpty(sceneGraphs) then [map[PlaceholderNode(target, dummyId) := {}]] else sceneGraphs
  }

  /** The graph left after adding `graphs` in order. */
  ghost function AddAll(g: NodeGraph, graphs: seq<NodeGraph>): NodeGraph
    decreases |graphs|
  {
    if graphs == [] then g else AddAll(Added(g, graphs[0]), graphs[1..])
  }

  /** Adding one more graph at the end. */
  lemma {:induction false} AddAllSnoc(g: NodeGraph, graphs: seq<NodeGraph>, last: NodeGraph)
    ensures AddAll(g, graphs + [last]) == Added(AddAll(g, graphs), last)
    decreases |graphs|
  {
    if graphs != [] {
      assert (graphs + [last])[1..] == graphs[1..] + [last];
      AddAllSnoc(Added(g, graphs[0]), graphs[1..], last);
    }
  }

  /** Adding graphs only grows the graph: every key and edge of the start
      and of every added graph is in the result. */
  lemma {:induction false} AddAllGrows(g: NodeGraph, graphs: seq<NodeGraph>)
    ensures forall k :: k in g ==> k in AddAll(g, graphs) && g[k] <= AddAll(g, graphs)[k]
    ensures forall i, k :: 0 <= i < |graphs| && k in graphs[i] ==>
      k in AddAll(g, graphs) && graphs[i][k] <= AddAll(g, graphs)[k]
    decreases |graphs|
  {
    if graphs != [] {
      var next := Added(g, graphs[0]);
      AddedGrows(g, graphs[0]);
      AddAllGrows(next, graphs[1..]);
      forall i, k | 0 <= i < |graphs| && k in graphs[i]
        ensures k in AddAll(g, graphs) && graphs[i][k] <= AddAll(g, graphs)[k]
      {
        if i > 0 {
          assert graphs[i] == graphs[1..][i - 1];
        }
      }
    }
  }

  /** Every key of the result comes from the start or an added graph. */
  lemma {:induction false} AddAllKeys(g: NodeGraph, graphs: seq<NodeGraph>)
    ensures forall k :: k in AddAll(g, graphs) ==> k in g || exists i :: 0 <= i < |graphs| && k in graphs[i]
    decreases |graphs|
  {
    if graphs != [] {
      var next := Added(g, graphs[0]);
      AddedContents(g, graphs[0]);
      AddAllKeys(next, graphs[1..]);
      forall k | k in AddAll(g, graphs)
        ensures k in g || exists i :: 0 <= i < |graphs| && k in graphs[i]
      {
        assert k in AddAll(next, graphs[1..]);
        if k !in g && k !in graphs[0] {
          assert k !in next;
          var j :| 0 <= j < |graphs[1..]| && k in graphs[1..][j];
          assert k in graphs[j + 1];
        }
      }
    }
  }

  class AssetReferenceBackend {
    /** The accumulated reference graph: objects linked to the ones they
        reference. */
    const referenceGraph: Graph<ObjectNode>

    /** Awake: the session starts from an empty reference graph. */
    constructor Awake()
      ensures fresh(referenceGraph) && referenceGraph.edges == map[]
    {
      referenceGraph := new Graph();
    }

    /** Init: the scan graphs of the target (or, when all of them are empty,
        the placeholder graph) are added to the reference graph in order,
        and the roots of the whole accumulated graph are returned. */
    method Init(target: Entity, sceneGraphs: seq<NodeGraph>, dummyId: nat) returns (roots: set<ObjectNode>)
      modifies referenceGraph
      ensures referenceGraph.edges == AddAll(old(referenceGraph.edges), GraphsToAdd(target, sceneGraphs, dummyId))
      ensures roots == GetRoots(referenceGraph.edges)
    {
      var graphs := sceneGraphs;
      if AllEmpty(sceneGraphs) {
        var dummyNode := PlaceholderNode(target, dummyId);
        graphs := [map[dummyNode := {}]];
      }
      ghost var start := referenceGraph.edges;
      for i := 0 to |graphs|
        invariant referenceGraph.edges == AddAll(start, graphs[..i])
      {
        AddAllSnoc(start, graphs[..i], graphs[i]);
        assert graphs[..i + 1] == graphs[..i] + [graphs[i]];
        referenceGraph.AddGraph(graphs[i]);
      }
      assert graphs[..|graphs|] == graphs;
      roots := GetRoots(referenceGraph.edges);
    }

    /** GetRelations: nothing for an unknown node, otherwise one untagged
        relation to each successor. */
    function GetRelations(entity: ObjectNode): (r: set<Relation<ObjectNode>>)
      reads this, referenceGraph
      ensures entity !in referenceGraph.edges ==> r == {}
      ensures entity in referenceGraph.edges ==> |r| == |referenceGraph.edges[entity]|
      ensures forall rel :: rel in r <==>
        entity in referenceGraph.edges && rel == Relation(entity, rel.target, "") && rel.target in referenceGraph.edges[entity]
    {
      if entity !in referenceGraph.edges then {} else Outgoing(entity, referenceGraph.edges[entity])
    }
  }

  /** OnEntitySelectionChange: SingleOrDefault throws on more than one
      selected node; a single node holding exactly one object selects that
      object; anything else selects nothing. */
  function SelectedObject(selection: seq<ObjectNode>): (r: Result<Option<Entity>>)
    ensures r.Err? <==> |selection| > 1
    ensures r.Err? ==> r.error == AmbiguousSelection
    ensures forall e :: r == Ok(Some(e)) <==> |selection| == 1 && selection[0].objs == [e]
    ensures r == Ok(None) <==> |selection| == 0 || (|selection| == 1 && |selection[0].objs| != 1)
  {
    if |selection| > 1 then Err(AmbiguousSelection)
    else if |selection| == 1 && |selection[0].objs| == 1 then Ok(Some(selection[0].objs[0]))
    else Ok(None)
  }

  /** Selecting the placeholder node selects the target. */
  lemma {:induction false} PlaceholderSelectsTarget(target: Entity, id: nat)
    ensures SelectedObject([PlaceholderNode(target, id)]) == Ok(Some(target))
  {
  }

  /** When every scan comes back empty the placeholder becomes a key of the
      reference graph, whatever earlier calls accumulated. */
  lemma {:induction false} PlaceholderIsKey(g: NodeGraph, target: Entity, sceneGraphs: seq<NodeGraph>, dummyId: nat)
    requires AllEmpty(sceneGraphs)
    ensures PlaceholderNode(target, dummyId) in AddAll(g, GraphsToAdd(target, sceneGraphs, dummyId))
  {
    var graphs := GraphsToAdd(target, sceneGraphs, dummyId);
    AddAllGrows(g, graphs);
    assert PlaceholderNode(target, dummyId) in graphs[0];
  }
}
