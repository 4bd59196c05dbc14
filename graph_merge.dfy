/** MergeGraphs (ObjectGraphUtil.cs:156-191): representatives of `a` whose
    members equal those of a representative of `b` are replaced by that `b`
    instance; then `a`'s keys and edges, so substituted, are added to a copy
    of `b`. */
module GraphMerge {
  import opened CycleReps
  import opened ObjectGraphUtil

  /** The `substitute` lambda of MergeGraphs. */
  function Sub(matches: map<Obj, Obj>, x: Obj): Obj {
    if x in matches then matches[x] else x
  }

  /** The matches the first loop may build: every representative key of `a`
      whose members equal those of some representative key of `b` is mapped
      to such a key, and nothing else is mapped. */
  ghost predicate ValidMatches(a: ObjMap, b: ObjMap, matches: map<Obj, Obj>) {
    && (forall x :: x in matches ==> x in a && x.Rep? && matches[x] in b && matches[x].Rep? && matches[x].members == x.members)
    && (forall x, y :: x in a && x.Rep? && x !in matches && y in b && y.Rep? ==> y.members != x.members)
  }

  /** What the substituted keys of `done` contribute to key `k`. */
  ghost function Contribution(a: ObjMap, matches: map<Obj, Obj>, done: set<Obj>, k: Obj): set<Obj> {
    set x, v | x in done && x in a && Sub(matches, x) == k && v in a[x] :: Sub(matches, v)
  }

  ghost function MergedKeys(a: ObjMap, b: ObjMap, matches: map<Obj, Obj>, done: set<Obj>): set<Obj> {
    b.Keys + (set x | x in done && x in a :: Sub(matches, x))
  }

  ghost function MergedEdges(a: ObjMap, b: ObjMap, matches: map<Obj, Obj>, done: set<Obj>, k: Obj): set<Obj> {
    (if k in b then b[k] else {}) + Contribution(a, matches, done, k)
  }

  /** `b` with the keys of `done` added. */
  ghost function MergedPart(a: ObjMap, b: ObjMap, matches: map<Obj, Obj>, done: set<Obj>): ObjMap {
    map k | k in MergedKeys(a, b, matches, done) :: MergedEdges(a, b, matches, done, k)
  }

  lemma MergedAt(a: ObjMap, b: ObjMap, matches: map<Obj, Obj>, done: set<Obj>, k: Obj)
    ensures k in MergedPart(a, b, matches, done) <==> k in MergedKeys(a, b, matches, done)
    ensures k in MergedKeys(a, b, matches, done) ==>
      MergedPart(a, b, matches, done)[k] == MergedEdges(a, b, matches, done, k)
  {
  }

  /** The merge: `b`'s keys plus the substituted keys of `a`; each key's
      edges are `b`'s united with the substituted edges of every `a` key that
      is substituted by it. */
  ghost function Merged(a: ObjMap, b: ObjMap, matches: map<Obj, Obj>): ObjMap {
    MergedPart(a, b, matches, a.Keys)
  }

  /** The representative keys of `b` whose members equal `ar`'s. */
  ghost predicate NoMatchAmong(ar: Obj, seen: set<Obj>)
    requires ar.Rep?
  {
    forall br :: br in seen && br.Rep? ==> br.members != ar.members
  }

  /** The inner loop of the matching (ObjectGraphUtil.cs:166-173): the first
      representative of `b` with the same members, if any. */
  method FindMatch(ar: Obj, b: ObjMap) returns (found: Option<Obj>)
    requires ar.Rep?
    ensures found.Some? ==> found.value in b && found.value.Rep? && found.value.members == ar.members
    ensures found.None? ==> NoMatchAmong(ar, b.Keys)
  {
    var bReps := set y | y in b && y.Rep?;
    var seen: set<Obj> := {};
    found := None;
    while bReps != {}
      invariant bReps <= b.Keys
      invariant forall y :: y in b && y.Rep? ==> y in bReps || y in seen
      invariant NoMatchAmong(ar, seen)
      decreases bReps
    {
      var br :| br in bReps;
      if EqualMembers(ar, Some(br)) {
        found := Some(br);
        return;
      }
      bReps := bReps - {br};
      seen := seen + {br};
    }
  }

  lemma {:induction false} ContributionStep(a: ObjMap, matches: map<Obj, Obj>, done: set<Obj>, x: Obj, k: Obj)
    requires x in a && x !in done
    ensures Contribution(a, matches, done + {x}, k) ==
      Contribution(a, matches, done, k) + (if Sub(matches, x) == k then set v | v in a[x] :: Sub(matches, v) else {})
  {
    var added := if Sub(matches, x) == k then set v | v in a[x] :: Sub(matches, v) else {};
    forall w | w in Contribution(a, matches, done + {x}, k)
      ensures w in Contribution(a, matches, done, k) + added
    {
      var y, v :| y in done + {x} && y in a && Sub(matches, y) == k && v in a[y] && w == Sub(matches, v);
      if y != x {
        assert w in Contribution(a, matches, done, k);
      }
    }
    forall w | w in Contribution(a, matches, done, k) + added
      ensures w in Contribution(a, matches, done + {x}, k)
    {
      if w in added {
        var v :| v in a[x] && w == Sub(matches, v);
        assert x in done + {x};
      } else {
        var y, v :| y in done && y in a && Sub(matches, y) == k && v in a[y] && w == Sub(matches, v);
        assert y in done + {x};
      }
    }
  }

  lemma {:induction false} MergedKeysStep(a: ObjMap, b: ObjMap, matches: map<Obj, Obj>, done: set<Obj>, x: Obj)
    requires x in a && x !in done
    ensures MergedKeys(a, b, matches, done + {x}) == MergedKeys(a, b, matches, done) + {Sub(matches, x)}
  {
    assert (set y | y in done + {x} && y in a :: Sub(matches, y)) ==
      (set y | y in done && y in a :: Sub(matches, y)) + {Sub(matches, x)};
  }

  /** Adding one key of `a` to the partial merge. */
  lemma {:induction false} MergedStep(a: ObjMap, b: ObjMap, matches: map<Obj, Obj>, done: set<Obj>, x: Obj)
    requires x in a && x !in done
    ensures var part := MergedPart(a, b, matches, done);
      var key := Sub(matches, x);
      MergedPart(a, b, matches, done + {x}) ==
        part[key := (if key in part then part[key] else {}) + set v | v in a[x] :: Sub(matches, v)]
  {
    var part := MergedPart(a, b, matches, done);
    var key := Sub(matches, x);
    var next := MergedPart(a, b, matches, done + {x});
    var expected := part[key := (if key in part then part[key] else {}) + set v | v in a[x] :: Sub(matches, v)];
    MergedKeysStep(a, b, matches, done, x);
    forall k
      ensures k in next <==> k in expected
    {
      MergedAt(a, b, matches, done, k);
      MergedAt(a, b, matches, done + {x}, k);
    }
    forall k | k in next
      ensures next[k] == expected[k]
    {
      MergedAt(a, b, matches, done, k);
      MergedAt(a, b, matches, done + {x}, k);
      MergedValueStep(a, b, matches, done, x, k);
    }
  }

  lemma {:induction false} MergedValueStep(a: ObjMap, b: ObjMap, matches: map<Obj, Obj>, done: set<Obj>, x: Obj, k: Obj)
    requires x in a && x !in done
    requires k in MergedKeys(a, b, matches, done + {x})
    ensures MergedEdges(a, b, matches, done + {x}, k) ==
      if k == Sub(matches, x) then
        (if k in MergedKeys(a, b, matches, done) then MergedEdges(a, b, matches, done, k) else {}) +
        set v | v in a[x] :: Sub(matches, v)
      else MergedEdges(a, b, matches, done, k)
  {
    ContributionStep(a, matches, done, x, k);
    if k == Sub(matches, x) && k !in MergedKeys(a, b, matches, done) {
      assert Contribution(a, matches, done, k) == {};
    }
  }

  /** Before any key of `a` is added, the partial merge is `b`. */
  lemma {:induction false} MergedNone(a: ObjMap, b: ObjMap, matches: map<Obj, Obj>)
    ensures MergedPart(a, b, matches, {}) == b
  {
    var r := MergedPart(a, b, matches, {});
    assert MergedKeys(a, b, matches, {}) == b.Keys;
    forall k | k in b
      ensures r[k] == b[k]
    {
      assert Contribution(a, matches, {}, k) == {};
    }
  }

  /** The matching loop of MergeGraphs (ObjectGraphUtil.cs:159-174). */
  method MatchReps(a: ObjMap, b: ObjMap) returns (matches: map<Obj, Obj>)
    ensures ValidMatches(a, b, matches)
  {
    var aReps := set x | x in a && x.Rep?;
    matches := map[];
    while aReps != {}
      invariant aReps <= a.Keys
      invariant forall x :: x in matches ==> x in a && x.Rep? && x !in aReps && matches[x] in b && matches[x].Rep? && matches[x].members == x.members
      invariant forall x :: x in a && x.Rep? ==> x in aReps || x in matches || NoMatchAmong(x, b.Keys)
      decreases aReps
    {
      var ar :| ar in aReps;
      var found := FindMatch(ar, b);
      if found.Some? {
        matches := matches[ar := found.value];
      }
      aReps := aReps - {ar};
    }
  }

  /** One key's update in MergeGraphs (ObjectGraphUtil.cs:183-187): an empty
      edge set for a new key, then each value added in turn. */
  method AddEdges(result: ObjMap, addKey: Obj, addValues: set<Obj>) returns (result': ObjMap)
    ensures result' == result[addKey := (if addKey in result then result[addKey] else {}) + addValues]
  {
    result' := result;
    if addKey !in result' {
      result' := result'[addKey := {}];
    }
    ghost var base := result'[addKey];
    var remaining := addValues;
    while remaining != {}
      invariant remaining <= addValues
      invariant addKey in result' && result'[addKey] + remaining == base + addValues
      invariant result' == result[addKey := result'[addKey]]
      decreases remaining
    {
      var v :| v in remaining;
      result' := result'[addKey := result'[addKey] + {v}];
      remaining := remaining - {v};
    }
    assert base == if addKey in result then result[addKey] else {};
    assert result'[addKey] == base + addValues;
  }

  /** ObjectGraphUtil.MergeGraphs. The matches are returned so that the
      result can be stated against them. */
  method MergeGraphs(a: ObjMap, b: ObjMap) returns (result: ObjMap, matches: map<Obj, Obj>)
    ensures ValidMatches(a, b, matches)
    ensures result == Merged(a, b, matches)
  {
    matches := MatchReps(a, b);

    // add a's substituted keys and edges to a copy of b
    result := b;
    var todo := a.Keys;
    ghost var done: set<Obj> := {};
    MergedNone(a, b, matches);
    while todo != {}
      invariant todo + done == a.Keys && todo * done == {}
      invariant result == MergedPart(a, b, matches, done)
      decreases todo
    {
      var x :| x in todo;
      var addKey := Sub(matches, x);
      var addValues := set v | v in a[x] :: Sub(matches, v);
      result := AddEdges(result, addKey, addValues);
      MergedStep(a, b, matches, done, x);
      todo := todo - {x};
      done := done + {x};
    }
  }

  /** Merging into an empty graph gives the added graph back, key for key
      and edge for edge: nothing can be matched. */
  lemma {:induction false} MergeIntoEmpty(a: ObjMap, matches: map<Obj, Obj>)
    requires ValidMatches(a, map[], matches)
    ensures Merged(a, map[], matches) == a
  {
    assert matches == map[];
    var none: ObjMap := map[];
    var r := Merged(a, none, matches);
    forall k
      ensures k in r <==> k in a
    {
      MergedAt(a, none, matches, a.Keys, k);
      if k in a {
        assert Sub(matches, k) == k;
      }
    }
    forall k | k in a
      ensures r[k] == a[k]
    {
      MergedAt(a, none, matches, a.Keys, k);
      UnmatchedContribution(a, k);
    }
  }

  /** With no matches, a key's contribution is its own edges. */
  lemma {:induction false} UnmatchedContribution(a: ObjMap, k: Obj)
    requires k in a
    ensures Contribution(a, map[], a.Keys, k) == a[k]
  {
    var none: map<Obj, Obj> := map[];
    forall v | v in a[k]
      ensures v in Contribution(a, none, a.Keys, k)
    {
      assert Sub(none, k) == k && Sub(none, v) == v;
    }
  }

  /** Merging an empty graph into `b` gives `b`. */
  lemma {:induction false} MergeEmpty(b: ObjMap, matches: map<Obj, Obj>)
    ensures Merged(map[], b, matches) == b
  {
    var none: ObjMap := map[];
    assert none.Keys == {};
    MergedNone(none, b, matches);
  }

  lemma {:induction false} MergeKeepsEdge(a: ObjMap, b: ObjMap, matches: map<Obj, Obj>, x: Obj, v: Obj)
    requires x in a && v in a[x]
    ensures Sub(matches, x) in Merged(a, b, matches)
    ensures Sub(matches, v) in Merged(a, b, matches)[Sub(matches, x)]
  {
    var k := Sub(matches, x);
    assert k in (set y | y in a.Keys && y in a :: Sub(matches, y));
    MergedAt(a, b, matches, a.Keys, k);
    assert Sub(matches, v) in Contribution(a, matches, a.Keys, k);
  }

  /** The merge keeps every key and edge of `b`, and every key and edge of
      `a` up to the substitution. */
  lemma {:induction false} MergeKeepsBoth(a: ObjMap, b: ObjMap, matches: map<Obj, Obj>, r: ObjMap)
    requires r == Merged(a, b, matches)
    ensures forall k :: k in b ==> k in r && b[k] <= r[k]
    ensures forall x, v :: x in a && v in a[x] ==> Sub(matches, x) in r && Sub(matches, v) in r[Sub(matches, x)]
  {
    forall k | k in b
      ensures k in r && b[k] <= r[k]
    {
      MergedAt(a, b, matches, a.Keys, k);
    }
    forall x | x in a
      ensures forall v :: v in a[x] ==> Sub(matches, x) in r && Sub(matches, v) in r[Sub(matches, x)]
    {
      forall v | v in a[x]
        ensures Sub(matches, x) in r && Sub(matches, v) in r[Sub(matches, x)]
      {
        MergeKeepsEdge(a, b, matches, x, v);
      }
    }
  }

  /** A key that is not a representative is never replaced. */
  lemma {:induction false} LeafKeysKept(a: ObjMap, b: ObjMap, matches: map<Obj, Obj>, x: Obj)
    requires ValidMatches(a, b, matches)
    requires x in a && !x.Rep?
    ensures Sub(matches, x) == x
  {
  }

  /** A representative of `a` is replaced by a representative of `b` with the
      same members when there is one, and kept otherwise. */
  lemma {:induction false} RepsUnified(a: ObjMap, b: ObjMap, matches: map<Obj, Obj>, x: Obj)
    requires ValidMatches(a, b, matches)
    requires x in a && x.Rep?
    ensures (exists y :: y in b && y.Rep? && y.members == x.members) <==>
      (Sub(matches, x) in b && Sub(matches, x).Rep? && Sub(matches, x).members == x.members)
  {
  }

  /** Two scans that each produce a representative with members {P, Q},
      with the edges {R} and {S}, merge into the one `b` instance, with the
      edges {R, S}. */
  lemma {:induction false} MergeConverges(ra: Obj, rb: Obj, r: Obj, s: Obj, matches: map<Obj, Obj>)
    requires ra.Rep? && rb.Rep? && ra.members == rb.members && ra != rb
    requires ValidMatches(map[ra := {r}], map[rb := {s}], matches)
    requires !r.Rep?
    ensures Merged(map[ra := {r}], map[rb := {s}], matches) == map[rb := {r, s}]
  {
    var a := map[ra := {r}];
    var b := map[rb := {s}];
    assert Sub(matches, ra) == rb;
    assert Sub(matches, r) == r;
    var m := Merged(a, b, matches);
    assert (set x | x in a.Keys && x in a :: Sub(matches, x)) == {rb};
    assert MergedKeys(a, b, matches, a.Keys) == {rb};
    assert Contribution(a, matches, a.Keys, rb) == {r} by {
      assert r in Contribution(a, matches, a.Keys, rb) by {
        assert ra in a.Keys && r in a[ra];
      }
    }
    assert MergedEdges(a, b, matches, a.Keys, rb) == {r, s};
    assert m[rb] == {r, s};
  }

  /** No two representative keys of `g` have the same members. */
  ghost predicate DistinctReps(g: ObjMap) {
    forall y1, y2 :: y1 in g && y2 in g && y1.Rep? && y2.Rep? && y1.members == y2.members ==> y1 == y2
  }

  /** When `b` holds at most one representative per member set, the
      matching does not depend on the order the loops visit the keys in. */
  lemma {:induction false} MatchesDetermined(a: ObjMap, b: ObjMap, m1: map<Obj, Obj>, m2: map<Obj, Obj>)
    requires ValidMatches(a, b, m1) && ValidMatches(a, b, m2)
    requires DistinctReps(b)
    ensures m1 == m2
  {
    forall x | x in m1
      ensures x in m2 && m2[x] == m1[x]
    {
      assert m1[x] in b && m1[x].Rep? && m1[x].members == x.members;
    }
    forall x | x in m2
      ensures x in m1
    {
      assert m2[x] in b && m2[x].Rep? && m2[x].members == x.members;
    }
  }
}
