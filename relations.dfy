/** What a backend hands the inspector for one entity: one relation per
    successor, and the newline-joined text some tooltips are built from. */
module Relations {

  /** Relation<T, string>: an edge from `source` to `target` with a text tag. */
  datatype Relation<T> = Relation(source: T, target: T, tag: string)

  /** The relations GetRelations yields for a key: one untagged relation to
      each successor. */
  function Outgoing<T(!new)>(source: T, successors: set<T>): (r: set<Relation<T>>)
    ensures forall rel :: rel in r <==> rel.source == source && rel.target in successors && rel.tag == ""
    ensures |r| == |successors|
  {
    OutgoingCard(source, successors);
    set t | t in successors :: Relation(source, t, "")
  }

  /** Distinct successors give distinct relations. */
  lemma {:induction false} OutgoingCard<T>(source: T, successors: set<T>)
    ensures |set t | t in successors :: Relation(source, t, "")| == |successors|
  {
    if successors != {} {
      var t :| t in successors;
      var rest := successors - {t};
      OutgoingCard(source, rest);
      var all := set u | u in successors :: Relation(source, u, "");
      var some := set u | u in rest :: Relation(source, u, "");
      assert all == some + {Relation(source, t, "")};
      assert Relation(source, t, "") !in some;
    }
  }

  /** string.Join("\n", lines). */
  function JoinLines(lines: seq<string>): string {
    if |lines| == 0 then ""
    else if |lines| == 1 then lines[0]
    else lines[0] + "\n" + JoinLines(lines[1..])
  }

  /** The index of the first newline of `s`, or |s| when there is none. */
  function NewlineIndex(s: string): (i: nat)
    ensures i <= |s|
    ensures i < |s| ==> s[i] == '\n'
    ensures forall j :: 0 <= j < i ==> s[j] != '\n'
  {
    if |s| == 0 || s[0] == '\n' then 0 else 1 + NewlineIndex(s[1..])
  }

  /** Cuts `s` at every newline: the inverse of JoinLines. */
  function SplitLines(s: string): (r: seq<string>)
    ensures |r| >= 1
    ensures forall i :: 0 <= i < |r| ==> '\n' !in r[i]
    decreases |s|
  {
    var i := NewlineIndex(s);
    if i == |s| then [s] else [s[..i]] + SplitLines(s[i + 1..])
  }

  /** Lines without newlines can be recovered from the joined text. */
  lemma {:induction false} SplitJoin(lines: seq<string>)
    requires |lines| >= 1
    requires forall i :: 0 <= i < |lines| ==> '\n' !in lines[i]
    ensures SplitLines(JoinLines(lines)) == lines
  {
    var first := lines[0];
    NewlineFree(first);
    if |lines| == 1 {
      assert NewlineIndex(first) == |first|;
    } else {
      var s := first + "\n" + JoinLines(lines[1..]);
      assert s == first + ("\n" + JoinLines(lines[1..]));
      NewlineIndexPrefix(first, "\n" + JoinLines(lines[1..]));
      assert NewlineIndex(s) == |first| < |s|;
      assert s[..|first|] == first;
      assert s[|first| + 1..] == JoinLines(lines[1..]);
      SplitJoin(lines[1..]);
      assert SplitLines(s) == [first] + SplitLines(JoinLines(lines[1..]));
      assert lines == [first] + lines[1..];
    }
  }

  /** A string without a newline has its newline index at its end. */
  lemma {:induction false} NewlineFree(s: string)
    requires '\n' !in s
    ensures NewlineIndex(s) == |s|
  {
    if |s| > 0 {
      assert s[0] in s;
      assert forall c :: c in s[1..] ==> c in s;
      NewlineFree(s[1..]);
    }
  }

  /** The first newline of `a + "\n" + b` follows `a` when `a` has none. */
  lemma {:induction false} NewlineIndexPrefix(a: string, rest: string)
    requires '\n' !in a
    requires |rest| > 0 && rest[0] == '\n'
    ensures NewlineIndex(a + rest) == |a|
  {
    if |a| > 0 {
      assert a[0] in a;
      assert forall c :: c in a[1..] ==> c in a;
      assert (a + rest)[1..] == a[1..] + rest;
      NewlineIndexPrefix(a[1..], rest);
    } else {
      assert a + rest == rest;
    }
  }
}
