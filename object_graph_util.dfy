/** The pure parts of ObjectGraphUtil.cs: the two-level dependency map built
    from the dependency oracle, the target filter and the root finder. */
module ObjectGraphUtil {
  import opened CycleReps

  /** "Object -> objects it depends on". */
  type ObjMap = map<Obj, set<Obj>>

  /** A dependency map over host objects, before any collapsing. */
  type EntityMap = map<Entity, set<Entity>>

  /** The oracle is transitive over the objects the root depends on: every
      object a dependency depends on is itself a dependency of the root, and
      its own dependencies are among those of the object that references it.
      The host's dependency collector returns the transitive closure, so this
      holds for every root. */
  ghost predicate TransitiveOracle(deps: Entity -> set<Entity>, root: Entity) {
    forall k, y :: k in deps(root) && y in deps(k) ==> y in deps(root) && deps(y) <= deps(k)
  }

  /** Every successor is a key, and a successor's successors are among its
      predecessor's. */
  ghost predicate Transitive(m: EntityMap) {
    forall k, y :: k in m && y in m[k] ==> y in m && m[y] <= m[k]
  }

  /** GetAllDependencies: one entry per object the root depends on, mapped to
      that object's own dependencies (two hops from the root, no more). */
  function GetAllDependencies(root: Entity, deps: Entity -> set<Entity>): (r: EntityMap)
    ensures r.Keys == deps(root)
    ensures forall k :: k in r ==> r[k] == deps(k)
    ensures root in r <==> root in deps(root)
  {
    map obj | obj in deps(root) :: deps(obj)
  }

  /** The keys whose successor set meets the targets. */
  function ConnectedKeys(all: EntityMap, targets: set<Entity>): set<Entity> {
    set key | key in all && all[key] * targets != {}
  }

  /** GetConnectedDependencies on an already built map: with no targets the map
      itself; otherwise the keys that depend on a target, each mapped to the
      part of its successors that are such keys. */
  function Connect(all: EntityMap, targets: set<Entity>): (r: EntityMap)
    ensures targets == {} ==> r == all
    ensures targets != {} ==> forall k :: k in r <==> k in all && all[k] * targets != {}
    ensures targets != {} ==> forall k, y :: k in r ==> (y in r[k] <==> y in all[k] && y in r)
  {
    if targets == {} then all
    else
      var connectedToTarget := ConnectedKeys(all, targets);
      map obj | obj in connectedToTarget :: all[obj] * connectedToTarget
  }

  /** GetConnectedDependencies(root, targets). */
  function GetConnectedDependencies(root: Entity, targets: set<Entity>, deps: Entity -> set<Entity>): (r: EntityMap)
    ensures r.Keys <= deps(root)
    ensures forall k :: k in r ==> r[k] <= deps(k)
  {
    Connect(GetAllDependencies(root, deps), targets)
  }

  /** With targets, every successor of the filtered map is a key. */
  lemma ConnectClosed(all: EntityMap, targets: set<Entity>)
    requires targets != {}
    ensures forall k, y :: k in Connect(all, targets) && y in Connect(all, targets)[k] ==> y in Connect(all, targets)
  {
  }

  /** A transitive oracle gives a transitive two-level map, and the target
      filter keeps it transitive. */
  lemma {:induction false} ConnectedTransitive(root: Entity, targets: set<Entity>, deps: Entity -> set<Entity>)
    requires TransitiveOracle(deps, root)
    ensures Transitive(GetConnectedDependencies(root, targets, deps))
  {
    var all := GetAllDependencies(root, deps);
    var m := GetConnectedDependencies(root, targets, deps);
    assert Transitive(all);
    if targets != {} {
      forall k, y | k in m && y in m[k]
        ensures y in m && m[y] <= m[k]
      {
        assert y in all[k];
        assert all[y] <= all[k];
      }
    }
  }

  /** GetRoots: the keys that occur in no successor set, their own included. */
  function GetRoots<T>(m: map<T, set<T>>): (r: set<T>)
    ensures r <= m.Keys
    ensures forall k :: k in m ==> (k in r <==> forall p :: p in m ==> k !in m[p])
  {
    set k | k in m && forall v :: v in m.Values ==> k !in v
  }

  /** A key that lists itself is never a root. */
  lemma {:induction false} SelfLoopNotRoot<T>(m: map<T, set<T>>, k: T)
    requires k in m && k in m[k]
    ensures k !in GetRoots(m)
  {
    assert !(forall p :: p in m ==> k !in m[p]);
  }

  /** {A:{B}, C:{B}, B:{}} has the roots {A, C}. */
  lemma {:induction false} RootsExample<T>(a: T, b: T, c: T)
    requires a != b && b != c && a != c
    ensures GetRoots(map[a := {b}, c := {b}, b := {}]) == {a, c}
  {
    var m := map[a := {b}, c := {b}, b := {}];
    assert b in m[a];
    assert forall p :: p in m ==> a !in m[p];
    assert forall p :: p in m ==> c !in m[p];
    assert a in GetRoots(m) && c in GetRoots(m) && b !in GetRoots(m);
  }
}
