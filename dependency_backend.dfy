/** DependencyBackend.cs: the session that accumulates the dependency graphs
    of the objects it is started on, the relations it reports, the tooltip
    of a cluster and the objects a selection of nodes selects. */
module DependencyBackend {
  import opened CycleReps
  import opened ObjectGraphUtil
  import opened CycleFree
  import opened DependencyGraph
  import opened GraphMerge
  import opened Relations

  class DependencyBackend {
    /** The accumulated dependency graph of the session. */
    var graph: ObjMap
    /** The identity the next fresh representative receives. */
    var nextId: nat

    /** Awake: the session starts from an empty graph. */
    constructor Awake()
      ensures graph == map[]
    {
      graph := map[];
      nextId := 0;
    }

    /** Init: the dependency graph of `target`, scanned without a target
        filter, is merged into the session graph; the roots of that scan
        (not of the whole session graph) are returned. A scan whose cycles
        cannot be collapsed throws, leaving the session graph as it was. */
    method Init(target: Entity, deps: Entity -> set<Entity>)
      returns (r: Result<set<Obj>>, ghost scan: ObjMap, ghost matches: map<Obj, Obj>)
      requires TransitiveOracle(deps, target)
      modifies this
      ensures r.Err? <==> CollapseFails(GetConnectedDependencies(target, {}, deps))
      ensures r.Err? ==> r.error == AmbiguousGameObject && graph == old(graph)
      ensures r.Ok? ==>
        && DependencyGraphOf(target, {}, deps, scan)
        && ValidMatches(old(graph), scan, matches)
        && graph == Merged(old(graph), scan, matches)
        && r.value == GetRoots(scan)
        && |r.value| == (if scan == map[] then 0 else 1)
      ensures r.Ok? ==> forall o :: o in r.value ==> o == Leaf(target) || (o.Rep? && target in o.members)
      ensures old(nextId) <= nextId
    {
      var g, id := ScanTarget(target, deps, nextId);
      nextId := id;
      scan, matches := map[], map[];
      if g.Err? {
        r := Err(g.error);
        return;
      }
      var rootGOgraph := g.value;
      if rootGOgraph != map[] {
        ScanRootHoldsTarget(target, {}, deps, rootGOgraph);
      }
      var merged, found := MergeGraphs(graph, rootGOgraph);
      graph, scan, matches := merged, rootGOgraph, found;
      r := Ok(GetRoots(rootGOgraph));
    }

    /** GetRelations: nothing for an entity that is not a key, otherwise one
        untagged relation to each successor. */
    function GetRelations(entity: Obj): (r: set<Relation<Obj>>)
      reads this
      ensures entity !in graph ==> r == {}
      ensures entity in graph ==> |r| == |graph[entity]|
      ensures forall rel :: rel in r <==> entity in graph && rel == Relation(entity, rel.target, "") && rel.target in graph[entity]
    {
      if entity !in graph then {} else Outgoing(entity, graph[entity])
    }
  }

  /** The scan of Init (line 25): the dependency graph of `target` with no
      target filter, which has one root unless it is empty. */
  method ScanTarget(target: Entity, deps: Entity -> set<Entity>, nextId: nat) returns (g: Result<ObjMap>, nextId': nat)
    requires TransitiveOracle(deps, target)
    ensures g.Err? <==> CollapseFails(GetConnectedDependencies(target, {}, deps))
    ensures g.Err? ==> g.error == AmbiguousGameObject
    ensures g.Ok? ==> DependencyGraphOf(target, {}, deps, g.value)
    ensures g.Ok? ==> |GetRoots(g.value)| == (if g.value == map[] then 0 else 1)
    ensures nextId <= nextId'
  {
    ghost var replacement, collapsed, cycleFree, graphRoot;
    g, nextId', replacement, collapsed, cycleFree, graphRoot := GetDependencyGraph(target, {}, deps, nextId);
  }

  /** The `substitute` lambda of OnEntitySelectionChange: a representative
      of a single object selects that object, one anchored to a GameObject
      selects the GameObject, any other representative selects itself, and a
      host object selects itself. */
  function SelectionSubstitute(x: Obj): (r: Obj)
    ensures x.Leaf? ==> r == x
    ensures x.Rep? && |x.members| == 1 ==> r.Leaf? && x.members == {r.entity}
    ensures x.Rep? && |x.members| != 1 && x.anchor.Some? ==> r == Leaf(x.anchor.value)
    ensures x.Rep? && |x.members| != 1 && x.anchor.None? ==> r == x
  {
    match x
    case Leaf(_) => x
    case Rep(_, members, anchor, _) =>
      if |members| == 1 then
        SingletonUnique(members);
        var e :| e in members;
        assert members == {e};
        Leaf(e)
      else if anchor.Some? then Leaf(anchor.value)
      else x
  }

  /** The objects handed to the host selection: each selected node
      substituted in place. */
  function SelectedObjects(selection: seq<Obj>): (r: seq<Obj>)
    ensures |r| == |selection|
    ensures forall i :: 0 <= i < |r| ==> r[i] == SelectionSubstitute(selection[i])
  {
    seq(|selection|, i requires 0 <= i < |selection| => SelectionSubstitute(selection[i]))
  }

  /** For a representative built by CycleRep.Create the selection never
      leaves the group: it is the group itself or one of its members, and
      substituting again changes nothing. */
  lemma {:induction false} SelectionStaysInGroup(id: nat, members: set<Entity>)
    requires Create(id, members).Ok?
    ensures var x := Create(id, members).value;
      && (SelectionSubstitute(x) == x || (SelectionSubstitute(x).Leaf? && SelectionSubstitute(x).entity in members))
      && SelectionSubstitute(SelectionSubstitute(x)) == SelectionSubstitute(x)
  {
    var x := Create(id, members).value;
    if |members| != 1 && x.anchor.Some? {
      assert IsAnchor(x.anchor.value, members);
    }
  }

  /** The names of `members`, in order. */
  function MemberNames(members: seq<Entity>): (names: seq<string>)
    ensures |names| == |members|
    ensures forall i :: 0 <= i < |members| ==> names[i] == members[i].name
  {
    seq(|members|, i requires 0 <= i < |members| => members[i].name)
  }

  /** GetEntityTooltip: the default tooltip for a host object; for a
      representative its anchor's name, or without an anchor its members'
      names joined with newlines, in `memberOrder`, the order in which the
      member set enumerates them (each member once). When no name holds a
      newline, splitting the tooltip at newlines gives the names back. */
  function EntityTooltip(entity: Obj, defaultTooltip: string, memberOrder: seq<Entity>): (r: string)
    requires entity.Rep? ==> forall e :: e in memberOrder <==> e in entity.members
    requires entity.Rep? ==> forall i, j :: 0 <= i < j < |memberOrder| ==> memberOrder[i] != memberOrder[j]
    ensures entity.Leaf? ==> r == defaultTooltip
    ensures entity.Rep? && entity.anchor.Some? ==> r == entity.anchor.value.name
    ensures entity.Rep? && entity.anchor.None? ==> r == JoinLines(MemberNames(memberOrder))
    ensures entity.Rep? && entity.anchor.None? && |memberOrder| >= 1
            && (forall i :: 0 <= i < |memberOrder| ==> '\n' !in memberOrder[i].name) ==>
      |SplitLines(r)| == |memberOrder| && forall i :: 0 <= i < |memberOrder| ==> SplitLines(r)[i] == memberOrder[i].name
  {
    if entity.Leaf? then defaultTooltip
    else if entity.anchor.Some? then entity.anchor.value.name
    else
      var names := MemberNames(memberOrder);
      if |names| >= 1 && forall i :: 0 <= i < |names| ==> '\n' !in names[i] then
        SplitJoin(names);
        JoinLines(names)
      else JoinLines(names)
  }
}
