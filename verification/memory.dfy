/** Vocabulary shared by both allocator headers: nullable handles, the outcome of
    one call to the system allocator, slab element counts, and a few facts about
    sequences that the list manipulations of both allocators rely on. */
module Memory {

  /** A nullable handle: `None` plays the role of a null pointer. */
  datatype Option<+T> = None | Some(value: T)

  /** The outcome of one call to the system allocator: a null pointer, or a
      fresh block whose address serves as its identity. Block contents and
      byte layout are not modelled. */
  datatype Malloc = Null | Fresh(addr: nat)

  /** A number of elements per slab that is at least one. */
  type Size = n: nat | n >= 1 witness 1

  /** No element occurs twice in `s`. */
  predicate Distinct<T(==)>(s: seq<T>) {
    forall i, j :: 0 <= i < j < |s| ==> s[i] != s[j]
  }

  /** No element of `a` occurs in `b`. */
  predicate Disjoint<T(==)>(a: seq<T>, b: seq<T>) {
    forall x :: x in a ==> x !in b
  }

  function Min(a: nat, b: nat): nat {
    if a < b then a else b
  }

  /** `s` back to front: the order in which elements pushed one by one onto the
      head of a singly linked list end up in that list. */
  function Reverse<T>(s: seq<T>): (r: seq<T>)
    ensures |r| == |s|
    ensures forall i :: 0 <= i < |s| ==> r[i] == s[|s| - 1 - i]
  {
    if s == [] then [] else Reverse(s[1..]) + [s[0]]
  }

  lemma ReverseMembers<T>(s: seq<T>)
    ensures forall x :: x in Reverse(s) <==> x in s
    ensures multiset(Reverse(s)) == multiset(s)
  {
    if s != [] {
      ReverseMembers(s[1..]);
      assert s == [s[0]] + s[1..];
    }
  }

  lemma ReverseDistinct<T>(s: seq<T>)
    requires Distinct(s)
    ensures Distinct(Reverse(s))
  {
    var r := Reverse(s);
    forall i, j | 0 <= i < j < |r|
      ensures r[i] != r[j]
    {
      assert r[i] == s[|s| - 1 - i] && r[j] == s[|s| - 1 - j];
    }
  }

  /** A sequence without repetitions counts each element at most once. */
  lemma {:induction false} DistinctCountsOnce<T>(s: seq<T>)
    requires Distinct(s)
    ensures forall x :: multiset(s)[x] <= 1
  {
    if s != [] {
      DistinctCountsOnce(s[1..]);
      assert s == [s[0]] + s[1..];
      forall k | 0 <= k < |s[1..]|
        ensures s[1..][k] != s[0]
      {
        assert s[1..][k] == s[k + 1];
      }
    }
  }

  /** Pushing two distinct-and-disjoint lists together keeps them distinct. */
  lemma DistinctAppend<T>(a: seq<T>, b: seq<T>)
    requires Distinct(a) && Distinct(b) && Disjoint(a, b)
    ensures Distinct(a + b)
  {
    var c := a + b;
    forall i, j | 0 <= i < j < |c|
      ensures c[i] != c[j]
    {
      if j < |a| {
      } else if i >= |a| {
        assert c[i] == b[i - |a|] && c[j] == b[j - |a|];
      } else {
        assert c[i] in a;
        assert c[j] == b[j - |a|];
      }
    }
  }
}
