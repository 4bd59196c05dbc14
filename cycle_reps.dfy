/** Host objects, the node type of the dependency maps, and the cycle
    representative record that stands for a group of host objects
    (CycleRep.cs). */
module CycleReps {

  datatype Option<T> = None | Some(value: T)

  /** The exceptions the modelled code can throw: `SingleOrDefault` on a
      sequence with more than one element. */
  datatype Error = AmbiguousGameObject | AmbiguousSelection

  datatype Result<T> = Ok(value: T) | Err(error: Error)

  /** The kind of a host object. A component records the id of the
      GameObject it is attached to (its `gameObject` property). */
  datatype Kind = GameObjectKind | ComponentKind(owner: nat) | OtherKind

  /** A host object. Equality of these values stands for reference equality
      of the host objects, so two entities are the same iff their ids are. */
  datatype Entity = Entity(id: nat, kind: Kind, name: string)

  /** A node of a dependency map: a host object, or a cycle representative.
      The `id` of a representative stands for its reference identity: two
      representatives with equal members are different keys unless they are
      the same instance. */
  datatype Obj =
    | Leaf(entity: Entity)
    | Rep(id: nat, members: set<Entity>, anchor: Option<Entity>, name: string)

  const CycleRepName: string := "Cycle Rep"

  predicate IsGameObject(e: Entity) {
    e.kind.GameObjectKind?
  }

  /** More than one member is a GameObject, so `SingleOrDefault` throws. */
  predicate TwoGameObjects(members: set<Entity>) {
    exists g1, g2 :: g1 in members && g2 in members && g1 != g2 && IsGameObject(g1) && IsGameObject(g2)
  }

  /** `go` is the anchor of `members`: a member GameObject to which every
      other member is attached as a component. */
  predicate IsAnchor(go: Entity, members: set<Entity>) {
    && go in members
    && IsGameObject(go)
    && forall m :: m in members && m != go ==> m.kind == ComponentKind(go.id)
  }

  function GameObjects(members: set<Entity>): set<Entity> {
    set m | m in members && IsGameObject(m)
  }

  lemma {:induction false} TwoGameObjectsCard(members: set<Entity>)
    ensures TwoGameObjects(members) <==> |GameObjects(members)| > 1
  {
    var gos := GameObjects(members);
    if TwoGameObjects(members) {
      var g1, g2 :| g1 in members && g2 in members && g1 != g2 && IsGameObject(g1) && IsGameObject(g2);
      assert {g1, g2} <= gos;
      assert |{g1, g2}| == 2;
      SubsetCard({g1, g2}, gos);
    }
    if |gos| > 1 {
      var g1 :| g1 in gos;
      assert |gos - {g1}| == |gos| - 1;
      var g2 :| g2 in gos - {g1};
      assert g1 in members && g2 in members && g1 != g2 && IsGameObject(g1) && IsGameObject(g2);
    }
  }

  lemma {:induction false} SubsetCard<T>(a: set<T>, b: set<T>)
    requires a <= b
    ensures |a| <= |b|
  {
    if a != {} {
      var x :| x in a;
      SubsetCard(a - {x}, b - {x});
    }
  }

  lemma {:induction false} SingletonUnique<T>(s: set<T>)
    requires |s| == 1
    ensures forall x, y :: x in s && y in s ==> x == y
  {
    var x :| x in s;
    assert |s - {x}| == 0;
  }

  /** The anchor rule of CycleRep.GetGameObject: an error when more than one
      member is a GameObject, the anchor when there is one, none otherwise. */
  function GetGameObject(members: set<Entity>): (r: Result<Option<Entity>>)
    ensures r.Err? <==> TwoGameObjects(members)
    ensures r.Err? ==> r.error == AmbiguousGameObject
    ensures forall g :: r == Ok(Some(g)) <==> IsAnchor(g, members)
  {
    TwoGameObjectsCard(members);
    var gos := GameObjects(members);
    assert forall g :: IsAnchor(g, members) ==> g in gos;
    if |gos| > 1 then Err(AmbiguousGameObject)
    else if gos == {} then Ok(None)
    else
      SingletonUnique(gos);
      var go :| go in gos;
      if forall m :: m in members - {go} ==> m.kind == ComponentKind(go.id)
      then Ok(Some(go))
      else Ok(None)
  }

  /** CycleRep.Create: a fresh representative (identity `id`) whose members
      are the given set, whose anchor follows the anchor rule and whose name
      is the anchor's name, or "Cycle Rep" without an anchor. */
  function Create(id: nat, members: set<Entity>): (r: Result<Obj>)
    ensures r.Err? <==> TwoGameObjects(members)
    ensures r.Ok? ==> r.value.Rep? && r.value.id == id && r.value.members == members
    ensures r.Ok? ==> forall g :: r.value.anchor == Some(g) <==> IsAnchor(g, members)
    ensures r.Ok? ==> r.value.name == if r.value.anchor.None? then CycleRepName else r.value.anchor.value.name
  {
    var anchor := GetGameObject(members);
    if anchor.Err? then Err(anchor.error)
    else Ok(Rep(id, members, anchor.value, if anchor.value.None? then CycleRepName else anchor.value.value.name))
  }

  /** CycleRep.EqualMembers: false for a missing (null) argument, otherwise
      set equality of the members. */
  function EqualMembers(self: Obj, other: Option<Obj>): (r: bool)
    requires self.Rep?
    requires other.Some? ==> other.value.Rep?
    ensures r <==> other.Some? && forall e :: e in other.value.members <==> e in self.members
  {
    other.Some? && other.value.members == self.members
  }

  lemma EqualMembersReflexiveSymmetric(x: Obj, y: Obj)
    requires x.Rep? && y.Rep?
    ensures EqualMembers(x, Some(x))
    ensures EqualMembers(x, Some(y)) == EqualMembers(y, Some(x))
    ensures !EqualMembers(x, None)
  {
  }

  /** A single-member set never has an ambiguous anchor, so creating a
      representative for one object cannot fail. */
  lemma {:induction false} SingletonCreateOk(id: nat, e: Entity)
    ensures Create(id, {e}).Ok?
    ensures Create(id, {e}).value.anchor == if IsGameObject(e) then Some(e) else None
  {
    if IsGameObject(e) {
      assert IsAnchor(e, {e});
    }
  }
}
