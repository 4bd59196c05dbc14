/** SetComparer.cs: the equality comparer for sets of objects used to
    recognise equal member sets, with its order-dependent 32-bit hash. */
module SetComparer {
  import opened CycleReps

  const TwoTo32: int := 0x1_0000_0000
  const TwoTo31: int := 0x8000_0000

  /** A signed 32-bit integer. */
  newtype int32 = x: int | -0x8000_0000 <= x < 0x8000_0000

  /** The signed 32-bit value an unchecked operation leaves: `x` reduced
      modulo 2^32 into the signed range. */
  function Wrap32(x: int): (r: int32)
    ensures (r as int - x) % TwoTo32 == 0
  {
    ((x + TwoTo31) % TwoTo32 - TwoTo31) as int32
  }

  /** Two numbers that agree modulo 2^32 wrap to the same value: the result
      of Wrap32 is the only 32-bit value congruent to its argument. */
  lemma {:induction false} WrapCongruent(x: int, y: int)
    requires (x - y) % TwoTo32 == 0
    ensures Wrap32(x) == Wrap32(y)
  {
    var k := (x - y) / TwoTo32;
    assert x - y == k * TwoTo32;
    ModShift(y + TwoTo31, k);
    assert x + TwoTo31 == (y + TwoTo31) + k * TwoTo32;
  }

  /** Adding a multiple of 2^32 leaves the remainder alone. */
  lemma {:induction false} ModShift(a: int, k: int)
    ensures (a + k * TwoTo32) % TwoTo32 == a % TwoTo32
    decreases if k < 0 then -k else k
  {
    if k > 0 {
      ModShift(a, k - 1);
      assert a + k * TwoTo32 == (a + (k - 1) * TwoTo32) + TwoTo32;
    } else if k < 0 {
      ModShift(a, k + 1);
      assert a + k * TwoTo32 == (a + (k + 1) * TwoTo32) - TwoTo32;
    }
  }

  /** A value already in range is left as it is. */
  lemma {:induction false} WrapInRange(x: int)
    requires -TwoTo31 <= x < TwoTo31
    ensures Wrap32(x) as int == x
  {
  }

  /** Equals: `a.SetEquals(b)`. */
  function Equals(a: set<Obj>, b: set<Obj>): (r: bool)
    ensures r <==> forall x :: x in a <==> x in b
  {
    a == b
  }

  /** Equals is an equivalence. */
  lemma {:induction false} EqualsIsEquivalence(a: set<Obj>, b: set<Obj>, c: set<Obj>)
    ensures Equals(a, a)
    ensures Equals(a, b) == Equals(b, a)
    ensures Equals(a, b) && Equals(b, c) ==> Equals(a, c)
  {
  }

  /** One step of the hash: `hash * 23 + item`, each operation unchecked. */
  function HashStep(hash: int32, itemHash: int32): int32 {
    Wrap32(Wrap32(hash as int * 23) as int + itemHash as int)
  }

  /** The hash of `items`, enumerated in this order: 17 folded from the
      left with HashStep. */
  function HashFold(items: seq<Obj>, itemHash: Obj -> int32): int32 {
    if items == [] then 17
    else HashStep(HashFold(items[..|items| - 1], itemHash), itemHash(items[|items| - 1]))
  }

  /** GetHashCode over the set's enumeration order. */
  method GetHashCode(items: seq<Obj>, itemHash: Obj -> int32) returns (hash: int32)
    ensures hash == HashFold(items, itemHash)
  {
    hash := 17;
    for i := 0 to |items|
      invariant hash == HashFold(items[..i], itemHash)
    {
      assert items[..i + 1][..i] == items[..i];
      hash := HashStep(hash, itemHash(items[i]));
    }
    assert items[..|items|] == items;
  }

  /** The same hash without wrap-around: 17 * 23^n plus each item's hash
      times 23 raised to the number of items after it. */
  function Polynomial(items: seq<Obj>, itemHash: Obj -> int32): int {
    if items == [] then 17
    else Polynomial(items[..|items| - 1], itemHash) * 23 + itemHash(items[|items| - 1]) as int
  }

  /** The wrapped fold equals the unbounded polynomial reduced once. */
  lemma {:induction false} HashIsWrappedPolynomial(items: seq<Obj>, itemHash: Obj -> int32)
    ensures HashFold(items, itemHash) == Wrap32(Polynomial(items, itemHash))
  {
    if items != [] {
      var init := items[..|items| - 1];
      var ih := itemHash(items[|items| - 1]) as int;
      var h := HashFold(init, itemHash);
      var p := Polynomial(init, itemHash);
      HashIsWrappedPolynomial(init, itemHash);
      // h ≡ p, so h * 23 + ih ≡ p * 23 + ih (mod 2^32)
      var kh := (h as int - p) / TwoTo32;
      assert h as int - p == kh * TwoTo32;
      var m := Wrap32(h as int * 23) as int;
      var km := (m - h as int * 23) / TwoTo32;
      assert m - h as int * 23 == km * TwoTo32;
      assert (m + ih) - (p * 23 + ih) == (km + 23 * kh) * TwoTo32;
      ModShift(0, km + 23 * kh);
      WrapCongruent(m + ih, p * 23 + ih);
    }
  }

  /** The hash of the empty set is 17. */
  lemma {:induction false} EmptyHash(itemHash: Obj -> int32)
    ensures HashFold([], itemHash) == 17
  {
  }

  /** A one-element set hashes to 391 plus the item's hash, wrapped. */
  lemma {:induction false} SingletonHash(x: Obj, itemHash: Obj -> int32)
    ensures HashFold([x], itemHash) == Wrap32(391 + itemHash(x) as int)
  {
    assert [x][..0] == [];
    WrapInRange(17 * 23);
  }

  /** The hash depends on the enumeration order: two objects hashing to 0
      and 1 give different hashes in the two orders. */
  lemma {:induction false} OrderMatters(a: Obj, b: Obj, itemHash: Obj -> int32)
    requires itemHash(a) == 0 && itemHash(b) == 1
    ensures HashFold([a, b], itemHash) == 8994
    ensures HashFold([b, a], itemHash) == 9016
  {
    SingletonHash(a, itemHash);
    SingletonHash(b, itemHash);
    assert [a, b][..1] == [a];
    assert [b, a][..1] == [b];
    WrapInRange(391);
    WrapInRange(392);
    WrapInRange(391 * 23);
    WrapInRange(392 * 23);
    WrapInRange(8994);
    WrapInRange(9016);
  }
}
