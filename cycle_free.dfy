/** GetCycleFreeDependencies (ObjectGraphUtil.cs:66-113): keys whose successor
    sets are set-equal are replaced by one fresh cycle representative, and
    the substitution is applied to keys and successors alike. */
module CycleFree {
  import opened CycleReps
  import opened ObjectGraphUtil

  /** The keys of `m` that share `k`'s successor set. */
  function Class(m: EntityMap, k: Entity): (c: set<Entity>)
    requires k in m
    ensures k in c && c <= m.Keys
  {
    set x | x in m && m[x] == m[k]
  }

  /** The `substitute` lambda: a replaced object becomes its representative,
      any other object stands for itself. */
  function Substitute(replacement: map<Entity, Obj>, e: Entity): Obj {
    if e in replacement then replacement[e] else Leaf(e)
  }

  function Image(replacement: map<Entity, Obj>, s: set<Entity>): set<Obj> {
    set e | e in s :: Substitute(replacement, e)
  }

  /** What `k` is substituted by: itself when no other key shares its
      successor set, otherwise a representative created for its whole class. */
  ghost predicate GroupedAt(m: EntityMap, replacement: map<Entity, Obj>, k: Entity)
    requires k in m
  {
    if Class(m, k) == {k} then Substitute(replacement, k) == Leaf(k)
    else
      && Substitute(replacement, k).Rep?
      && Create(Substitute(replacement, k).id, Class(m, k)) == Ok(Substitute(replacement, k))
  }

  /** The successors of the substituted key: a group of one keeps its own
      successors; a representative gets the shared successors minus its own
      members. Either way they are substituted. */
  function CollapsedEdges(m: EntityMap, replacement: map<Entity, Obj>, k: Entity): set<Obj>
    requires k in m
  {
    Image(replacement, if Class(m, k) == {k} then m[k] else m[k] - Class(m, k))
  }

  ghost predicate AllGrouped(m: EntityMap, replacement: map<Entity, Obj>) {
    forall k :: k in m ==> GroupedAt(m, replacement, k)
  }

  /** Two keys get the same substitute iff their successor sets are equal. */
  ghost predicate SubstitutionSeparates(m: EntityMap, replacement: map<Entity, Obj>) {
    forall k1, k2 :: k1 in m && k2 in m ==>
      (Substitute(replacement, k1) == Substitute(replacement, k2) <==> m[k1] == m[k2])
  }

  ghost predicate CollapsedKeys(m: EntityMap, replacement: map<Entity, Obj>, r: ObjMap) {
    r.Keys == (set k | k in m :: Substitute(replacement, k))
  }

  ghost predicate CollapsedSuccessors(m: EntityMap, replacement: map<Entity, Obj>, r: ObjMap)
    requires CollapsedKeys(m, replacement, r)
  {
    forall k :: k in m ==> r[Substitute(replacement, k)] == CollapsedEdges(m, replacement, k)
  }

  /** `r` is a collapse of `m` under `replacement`. */
  ghost predicate IsCollapse(m: EntityMap, replacement: map<Entity, Obj>, r: ObjMap) {
    && replacement.Keys <= m.Keys
    && AllGrouped(m, replacement)
    && SubstitutionSeparates(m, replacement)
    && CollapsedKeys(m, replacement, r)
    && CollapsedSuccessors(m, replacement, r)
  }

  /** The facts a collapse states about one key. */
  lemma CollapseAt(m: EntityMap, replacement: map<Entity, Obj>, r: ObjMap, k: Entity)
    requires IsCollapse(m, replacement, r) && k in m
    ensures GroupedAt(m, replacement, k)
    ensures Substitute(replacement, k) in r
    ensures r[Substitute(replacement, k)] == CollapsedEdges(m, replacement, k)
  {
  }

  lemma CollapseSeparates(m: EntityMap, replacement: map<Entity, Obj>, r: ObjMap, k1: Entity, k2: Entity)
    requires IsCollapse(m, replacement, r) && k1 in m && k2 in m
    ensures Substitute(replacement, k1) == Substitute(replacement, k2) <==> m[k1] == m[k2]
  {
  }

  lemma CollapseKeyOrigin(m: EntityMap, replacement: map<Entity, Obj>, r: ObjMap, o: Obj)
    requires IsCollapse(m, replacement, r)
    ensures o in r <==> exists k :: k in m && Substitute(replacement, k) == o
  {
  }

  /** Some group of two or more keys has more than one GameObject, so creating
      its representative throws. */
  ghost predicate CollapseFails(m: EntityMap) {
    exists k :: k in m && Class(m, k) != {k} && TwoGameObjects(Class(m, k))
  }

  lemma {:induction false} SameClass(m: EntityMap, k1: Entity, k2: Entity)
    requires k1 in m && k2 in m && m[k1] == m[k2]
    ensures Class(m, k1) == Class(m, k2)
  {
  }

  /** The per-key grouping facts, together with "equal successor sets get the
      same representative", give the substitution's if-and-only-if. */
  lemma {:induction false} SubstitutionIff(m: EntityMap, replacement: map<Entity, Obj>, k1: Entity, k2: Entity)
    requires k1 in m && k2 in m
    requires GroupedAt(m, replacement, k1) && GroupedAt(m, replacement, k2)
    requires k1 in replacement && k2 in replacement && m[k1] == m[k2] ==> replacement[k1] == replacement[k2]
    ensures Substitute(replacement, k1) == Substitute(replacement, k2) <==> m[k1] == m[k2]
  {
    if m[k1] == m[k2] {
      SameClass(m, k1, k2);
      if Class(m, k1) == {k1} {
        assert k2 in Class(m, k1);
      } else {
        assert Class(m, k2) != {k2};
      }
    }
    if Substitute(replacement, k1) == Substitute(replacement, k2) {
      if Substitute(replacement, k1).Rep? {
        assert Class(m, k1) == Substitute(replacement, k1).members == Class(m, k2);
        assert k1 in Class(m, k2);
      }
    }
  }

  /** The state of the grouping loop: `untested` holds whole classes, every
      tested key is grouped, and `replaceMap` holds each representative's
      successors before substitution. */
  ghost predicate GroupingInvariant(m: EntityMap, untested: set<Entity>, replacement: map<Entity, Obj>,
                                    replaceMap: map<Obj, set<Entity>>, nextId: nat, nextId': nat)
  {
    && untested <= m.Keys
    && replacement.Keys <= m.Keys - untested
    && (forall k, x :: k in m && k !in untested && x in m && m[x] == m[k] ==> x !in untested)
    && (forall k :: k in m && k !in untested ==> GroupedAt(m, replacement, k))
    && (forall k :: k in m && k !in untested && Class(m, k) != {k} ==> !TwoGameObjects(Class(m, k)))
    && (forall k :: k in replacement ==>
          replacement[k] in replaceMap && replaceMap[replacement[k]] == m[k] - Class(m, k))
    && (forall k1, k2 :: k1 in replacement && k2 in replacement && m[k1] == m[k2] ==> replacement[k1] == replacement[k2])
    && nextId <= nextId'
    && (forall k :: k in replacement ==> replacement[k].Rep? && nextId <= replacement[k].id < nextId')
  }

  /** Testing a key that shares its successor set with nobody left untested. */
  lemma {:induction false} GroupOfOne(m: EntityMap, untested: set<Entity>, replacement: map<Entity, Obj>,
                                      replaceMap: map<Obj, set<Entity>>, nextId: nat, nextId': nat, key: Entity)
    requires GroupingInvariant(m, untested, replacement, replaceMap, nextId, nextId')
    requires key in untested
    requires forall x :: x in untested - {key} ==> m[x] != m[key]
    ensures Class(m, key) == {key}
    ensures GroupingInvariant(m, untested - {key}, replacement, replaceMap, nextId, nextId')
  {
    forall x | x in m && m[x] == m[key]
      ensures x == key
    {
    }
  }

  /** The class of an untested key is the key and the untested keys that
      share its successor set. */
  lemma {:induction false} UntestedClass(m: EntityMap, untested: set<Entity>, replacement: map<Entity, Obj>,
                                         replaceMap: map<Obj, set<Entity>>, nextId: nat, nextId': nat,
                                         key: Entity, identicals: set<Entity>)
    requires GroupingInvariant(m, untested, replacement, replaceMap, nextId, nextId')
    requires key in untested
    requires identicals == set x | x in untested - {key} && m[x] == m[key]
    ensures Class(m, key) == identicals + {key}
    ensures forall x :: x in identicals + {key} ==> Class(m, x) == identicals + {key}
  {
    var members := identicals + {key};
    forall x | x in m && m[x] == m[key]
      ensures x in members
    {
      if x != key {
        assert x in untested;
      }
    }
    assert Class(m, key) == members;
    forall x | x in members
      ensures Class(m, x) == members
    {
      SameClass(m, x, key);
    }
  }

  /** The situation in which the loop creates a representative. */
  ghost predicate GroupStep(m: EntityMap, untested: set<Entity>, replacement: map<Entity, Obj>,
                            replaceMap: map<Obj, set<Entity>>, nextId: nat, nextId': nat,
                            key: Entity, identicals: set<Entity>, rep: Obj)
  {
    && GroupingInvariant(m, untested, replacement, replaceMap, nextId, nextId')
    && key in untested
    && identicals == (set x | x in untested - {key} && m[x] == m[key])
    && identicals != {}
    && Create(nextId', identicals + {key}) == Ok(rep)
  }

  lemma {:induction false} GroupStepGrouped(m: EntityMap, untested: set<Entity>, replacement: map<Entity, Obj>,
                                            replaceMap: map<Obj, set<Entity>>, nextId: nat, nextId': nat,
                                            key: Entity, identicals: set<Entity>, rep: Obj)
    requires GroupStep(m, untested, replacement, replaceMap, nextId, nextId', key, identicals, rep)
    ensures var members := identicals + {key};
      var replacement' := replacement + map x | x in members :: rep;
      && (forall k :: k in m && k !in untested - members ==> GroupedAt(m, replacement', k))
      && (forall k :: k in m && k !in untested - members && Class(m, k) != {k} ==> !TwoGameObjects(Class(m, k)))
      && (forall k, x :: k in m && k !in untested - members && x in m && m[x] == m[k] ==> x !in untested - members)
  {
    var members := identicals + {key};
    UntestedClass(m, untested, replacement, replaceMap, nextId, nextId', key, identicals);
    var replacement' := replacement + map x | x in members :: rep;
    forall k | k in m && k !in untested - members
      ensures GroupedAt(m, replacement', k)
      ensures Class(m, k) != {k} ==> !TwoGameObjects(Class(m, k))
    {
      if k in members {
        assert Substitute(replacement', k) == rep;
      } else {
        assert Substitute(replacement', k) == Substitute(replacement, k);
      }
    }
    forall k, x | k in m && k !in untested - members && x in m && m[x] == m[k]
      ensures x !in untested - members
    {
      if k in members {
        assert x in Class(m, k);
      }
    }
  }

  lemma {:induction false} GroupStepReplaced(m: EntityMap, untested: set<Entity>, replacement: map<Entity, Obj>,
                                             replaceMap: map<Obj, set<Entity>>, nextId: nat, nextId': nat,
                                             key: Entity, identicals: set<Entity>, rep: Obj)
    requires GroupStep(m, untested, replacement, replaceMap, nextId, nextId', key, identicals, rep)
    ensures var members := identicals + {key};
      var replacement' := replacement + map x | x in members :: rep;
      var replaceMap' := replaceMap[rep := m[key] - members];
      && (forall k :: k in replacement' ==>
            replacement'[k] in replaceMap' && replaceMap'[replacement'[k]] == m[k] - Class(m, k))
      && (forall k1, k2 :: k1 in replacement' && k2 in replacement' && m[k1] == m[k2] ==> replacement'[k1] == replacement'[k2])
      && (forall k :: k in replacement' ==> replacement'[k].Rep? && nextId <= replacement'[k].id < nextId' + 1)
  {
    var members := identicals + {key};
    UntestedClass(m, untested, replacement, replaceMap, nextId, nextId', key, identicals);
    var replacement' := replacement + map x | x in members :: rep;
    var replaceMap' := replaceMap[rep := m[key] - members];
    forall k | k in replacement'
      ensures replacement'[k] in replaceMap' && replaceMap'[replacement'[k]] == m[k] - Class(m, k)
    {
      if k !in members {
        assert replacement[k].id < nextId' && rep.id == nextId';
      }
    }
    forall k1, k2 | k1 in replacement' && k2 in replacement' && m[k1] == m[k2]
      ensures replacement'[k1] == replacement'[k2]
    {
    }
  }

  /** Testing a key whose class has other members: the representative takes
      over the whole class. */
  lemma {:induction false} GroupOfMany(m: EntityMap, untested: set<Entity>, replacement: map<Entity, Obj>,
                                       replaceMap: map<Obj, set<Entity>>, nextId: nat, nextId': nat,
                                       key: Entity, identicals: set<Entity>, rep: Obj)
    requires GroupStep(m, untested, replacement, replaceMap, nextId, nextId', key, identicals, rep)
    ensures GroupingInvariant(m, untested - {key} - identicals,
                              replacement + map x | x in identicals + {key} :: rep,
                              replaceMap[rep := m[key] - (identicals + {key})], nextId, nextId' + 1)
  {
    var members := identicals + {key};
    assert untested - {key} - identicals == untested - members;
    GroupStepGrouped(m, untested, replacement, replaceMap, nextId, nextId', key, identicals, rep);
    GroupStepReplaced(m, untested, replacement, replaceMap, nextId, nextId', key, identicals, rep);
  }

  /** The map the method returns, built from the finished grouping. */
  function BuildCycleFree(m: EntityMap, replacement: map<Entity, Obj>, replaceMap: map<Obj, set<Entity>>): ObjMap
    requires forall k :: k in replacement ==> replacement[k] in replaceMap
  {
    var cycleFreeObjs := set k | k in m :: Substitute(replacement, k);
    assert forall o :: o in cycleFreeObjs && !(o.Leaf? && o.entity in m) ==> o in replaceMap;
    map x | x in cycleFreeObjs ::
      if x.Leaf? && x.entity in m then Image(replacement, m[x.entity])
      else Image(replacement, replaceMap[x])
  }

  /** When nothing is left untested, the built map is a collapse of `m`. */
  lemma {:induction false} GroupingComplete(m: EntityMap, replacement: map<Entity, Obj>,
                                            replaceMap: map<Obj, set<Entity>>, nextId: nat, nextId': nat)
    requires GroupingInvariant(m, {}, replacement, replaceMap, nextId, nextId')
    ensures IsCollapse(m, replacement, BuildCycleFree(m, replacement, replaceMap))
    ensures !CollapseFails(m)
  {
    var r := BuildCycleFree(m, replacement, replaceMap);
    forall k | k in m
      ensures r[Substitute(replacement, k)] == CollapsedEdges(m, replacement, k)
    {
      BuiltAt(m, replacement, replaceMap, nextId, nextId', r, k);
    }
    forall k1, k2 | k1 in m && k2 in m
      ensures Substitute(replacement, k1) == Substitute(replacement, k2) <==> m[k1] == m[k2]
    {
      SubstitutionIff(m, replacement, k1, k2);
    }
  }

  /** The map built after the loop gives each key's substitute its
      collapsed successors. */
  lemma {:induction false} BuiltAt(m: EntityMap, replacement: map<Entity, Obj>, replaceMap: map<Obj, set<Entity>>,
                                   nextId: nat, nextId': nat, r: ObjMap, k: Entity)
    requires GroupingInvariant(m, {}, replacement, replaceMap, nextId, nextId')
    requires r == BuildCycleFree(m, replacement, replaceMap) && k in m
    ensures Substitute(replacement, k) in r && r[Substitute(replacement, k)] == CollapsedEdges(m, replacement, k)
  {
    if k in replacement {
      assert Class(m, k) != {k};
      assert r[replacement[k]] == Image(replacement, replaceMap[replacement[k]]);
    } else {
      assert Class(m, k) == {k};
    }
  }

  /** GetCycleFreeDependencies (ObjectGraphUtil.cs:66-113): keys with equal
      successor sets are grouped into one representative with fresh
      identity; the scan throws when a group's anchor is ambiguous. */
  method GetCycleFreeDependencies(root: Entity, targets: set<Entity>, deps: Entity -> set<Entity>, nextId: nat)
    returns (r: Result<ObjMap>, replacement: map<Entity, Obj>, nextId': nat)
    ensures var m := GetConnectedDependencies(root, targets, deps);
      && (r.Err? <==> CollapseFails(m))
      && (r.Ok? ==> IsCollapse(m, replacement, r.value))
    ensures r.Err? ==> r.error == AmbiguousGameObject
    ensures nextId <= nextId'
    ensures forall k :: k in replacement ==> replacement[k].Rep? && nextId <= replacement[k].id < nextId'
  {
    var m := GetConnectedDependencies(root, targets, deps);
    var untested := m.Keys;
    replacement := map[];
    var replaceMap: map<Obj, set<Entity>> := map[];
    nextId' := nextId;
    while untested != {}
      invariant GroupingInvariant(m, untested, replacement, replaceMap, nextId, nextId')
      decreases untested
    {
      var currentKey :| currentKey in untested;
      var currentValue := m[currentKey];
      var identicals := set x | x in untested - {currentKey} && m[x] == currentValue;
      if identicals != {} {
        var cycleMembers := identicals + {currentKey};
        var rep := Create(nextId', cycleMembers);
        if rep.Err? {
          UntestedClass(m, untested, replacement, replaceMap, nextId, nextId', currentKey, identicals);
          r := Err(rep.error);
          return;
        }
        GroupOfMany(m, untested, replacement, replaceMap, nextId, nextId', currentKey, identicals, rep.value);
        replaceMap := replaceMap[rep.value := currentValue - cycleMembers];
        replacement := replacement + map x | x in cycleMembers :: rep.value;
        untested := untested - {currentKey} - identicals;
        nextId' := nextId' + 1;
      } else {
        GroupOfOne(m, untested, replacement, replaceMap, nextId, nextId', currentKey);
        untested := untested - {currentKey};
      }
    }
    GroupingComplete(m, replacement, replaceMap, nextId, nextId');
    r := Ok(BuildCycleFree(m, replacement, replaceMap));
  }

  /** No representative lists itself as a successor. */
  lemma {:induction false} NoClusterListsItself(m: EntityMap, replacement: map<Entity, Obj>, r: ObjMap, k: Entity)
    requires IsCollapse(m, replacement, r)
    requires k in m && Class(m, k) != {k}
    ensures Substitute(replacement, k).Rep?
    ensures Substitute(replacement, k) !in r[Substitute(replacement, k)]
  {
    var rep := Substitute(replacement, k);
    CollapseAt(m, replacement, r, k);
    forall y | y in m[k] - Class(m, k)
      ensures Substitute(replacement, y) != rep
    {
      if y in m {
        CollapseSeparates(m, replacement, r, y, k);
      }
    }
  }

  /** A key that no other key shares its successors with keeps them,
      including itself when the oracle listed it. */
  lemma {:induction false} GroupOfOneKeepsSelfLoop(m: EntityMap, replacement: map<Entity, Obj>, r: ObjMap, k: Entity)
    requires IsCollapse(m, replacement, r)
    requires k in m && Class(m, k) == {k} && k in m[k]
    ensures Leaf(k) in r && Leaf(k) in r[Leaf(k)]
  {
    CollapseAt(m, replacement, r, k);
    assert Substitute(replacement, k) in Image(replacement, m[k]);
  }

  /** A representative's members are exactly the keys it substitutes. */
  lemma {:induction false} RepMembers(m: EntityMap, replacement: map<Entity, Obj>, r: ObjMap, k: Entity, e: Entity)
    requires IsCollapse(m, replacement, r)
    requires k in m && Substitute(replacement, k).Rep?
    ensures e in Substitute(replacement, k).members <==> e in m && Substitute(replacement, e) == Substitute(replacement, k)
  {
    CollapseAt(m, replacement, r, k);
    assert Class(m, k) != {k};
    if e in m {
      CollapseSeparates(m, replacement, r, e, k);
    }
  }

  /** At most one key of a collapse is a representative containing a given
      object, and when there is one it is that object's substitute. */
  lemma {:induction false} RepContainingUnique(m: EntityMap, replacement: map<Entity, Obj>, r: ObjMap, e: Entity, o: Obj)
    requires IsCollapse(m, replacement, r)
    requires o in r && o.Rep? && e in o.members
    ensures e in m && o == Substitute(replacement, e)
  {
    CollapseKeyOrigin(m, replacement, r, o);
    var k :| k in m && Substitute(replacement, k) == o;
    RepMembers(m, replacement, r, k, e);
  }

  /** The mutual pair {X:{Y}, Y:{X}} is not collapsed: the successor sets
      differ. */
  lemma {:induction false} MutualPairNotCollapsed(x: Entity, y: Entity, replacement: map<Entity, Obj>, r: ObjMap)
    requires x != y
    requires IsCollapse(map[x := {y}, y := {x}], replacement, r)
    ensures r == map[Leaf(x) := {Leaf(y)}, Leaf(y) := {Leaf(x)}]
  {
    var m := map[x := {y}, y := {x}];
    PairClasses(x, y);
    CollapseAt(m, replacement, r, x);
    CollapseAt(m, replacement, r, y);
    assert Image(replacement, {y}) == {Leaf(y)};
    assert Image(replacement, {x}) == {Leaf(x)};
    assert r.Keys == {Leaf(x), Leaf(y)};
  }

  lemma {:induction false} PairClasses(x: Entity, y: Entity)
    requires x != y
    ensures var m := map[x := {y}, y := {x}];
      Class(m, x) == {x} && Class(m, y) == {y}
  {
    var m := map[x := {y}, y := {x}];
    assert m[x] != m[y];
  }

  lemma {:induction false} ExampleClasses(a: Entity, b: Entity, c: Entity, d: Entity)
    requires a != b && a != c && a != d && b != c && b != d && c != d
    ensures var m := map[a := {b, c}, b := {d}, c := {d}];
      Class(m, a) == {a} && Class(m, b) == {b, c} && Class(m, c) == {b, c}
  {
    var m := map[a := {b, c}, b := {d}, c := {d}];
    assert m[a] != m[b];
  }

  lemma {:induction false} ExampleGroup(a: Entity, b: Entity, c: Entity, d: Entity,
                                        replacement: map<Entity, Obj>, r: ObjMap)
    requires a != b && a != c && a != d && b != c && b != d && c != d
    requires IsCollapse(map[a := {b, c}, b := {d}, c := {d}], replacement, r)
    ensures var rep := Substitute(replacement, b);
      && rep == Substitute(replacement, c) && rep.Rep? && rep.members == {b, c}
      && Substitute(replacement, a) == Leaf(a) && Substitute(replacement, d) == Leaf(d)
      && r.Keys == {Leaf(a), rep}
  {
    var m := map[a := {b, c}, b := {d}, c := {d}];
    ExampleClasses(a, b, c, d);
    CollapseAt(m, replacement, r, a);
    CollapseAt(m, replacement, r, b);
    CollapseSeparates(m, replacement, r, b, c);
    CollapseKeyOrigin(m, replacement, r, Leaf(a));
  }

  /** {A:{B,C}, B:{D}, C:{D}}: B and C share {D} and become one
      representative that A points to. */
  lemma {:induction false} EqualSuccessorsCollapsed(a: Entity, b: Entity, c: Entity, d: Entity,
                                                    replacement: map<Entity, Obj>, r: ObjMap)
    requires a != b && a != c && a != d && b != c && b != d && c != d
    requires IsCollapse(map[a := {b, c}, b := {d}, c := {d}], replacement, r)
    ensures var rep := Substitute(replacement, b);
      && rep == Substitute(replacement, c) && rep.Rep? && rep.members == {b, c}
      && r == map[Leaf(a) := {rep}, rep := {Leaf(d)}]
  {
    var m := map[a := {b, c}, b := {d}, c := {d}];
    ExampleGroup(a, b, c, d, replacement, r);
    ExampleClasses(a, b, c, d);
    var rep := Substitute(replacement, b);
    assert r[Leaf(a)] == {rep} by {
      CollapseAt(m, replacement, r, a);
      assert Image(replacement, {b, c}) == {rep};
    }
    assert r[rep] == {Leaf(d)} by {
      CollapseAt(m, replacement, r, b);
      assert m[b] - Class(m, b) == {d};
      assert Image(replacement, {d}) == {Leaf(d)};
    }
    TwoKeyMap(r, Leaf(a), rep);
  }

  /** A map with two keys is the display of its two entries. */
  lemma {:induction false} TwoKeyMap(r: ObjMap, k1: Obj, k2: Obj)
    requires r.Keys == {k1, k2}
    ensures r == map[k1 := r[k1], k2 := r[k2]]
  {
  }
}
