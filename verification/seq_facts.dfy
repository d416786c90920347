/**
  Facts about sequences without repeated elements. The pool iterates the key
  set of a hash map, whose order is not specified; such an iteration is
  modelled as a duplicate-free sequence holding exactly the keys.
 */
module SeqFacts {

  /** No element occurs twice in `s`. */
  predicate Distinct<T(==)>(s: seq<T>) {
    forall i, j :: 0 <= i < j < |s| ==> s[i] != s[j]
  }

  /** The set of elements of `s`. */
  function Elems<T(==)>(s: seq<T>): set<T> {
    set x | x in s
  }

  /** `order` visits every element of `keys` exactly once and nothing else. */
  predicate Enumerates<T(==)>(order: seq<T>, keys: set<T>) {
    Distinct(order) && Elems(order) == keys
  }

  lemma DistinctTail<T>(s: seq<T>)
    requires |s| > 0 && Distinct(s)
    ensures Distinct(s[1..]) && s[0] !in s[1..]
  {
    forall i, j | 0 <= i < j < |s| - 1
      ensures s[1..][i] != s[1..][j]
    {
      assert s[1..][i] == s[i + 1] && s[1..][j] == s[j + 1];
    }
  }

  /** Appending a new element keeps a sequence duplicate-free and adds it to the elements. */
  lemma Snoc<T>(s: seq<T>, x: T)
    requires Distinct(s) && x !in Elems(s)
    ensures Distinct(s + [x]) && Elems(s + [x]) == Elems(s) + {x}
  {
    assert forall i :: 0 <= i < |s| ==> (s + [x])[i] == s[i];
  }

  /** Concatenating two duplicate-free sequences with no element in common gives a duplicate-free one. */
  lemma DistinctAppend<T>(a: seq<T>, b: seq<T>)
    requires Distinct(a) && Distinct(b)
    requires forall x :: x in a ==> x !in Elems(b)
    ensures Distinct(a + b)
  {
    forall i, j | 0 <= i < j < |a + b|
      ensures (a + b)[i] != (a + b)[j]
    {
      if i < |a| <= j {
        assert (a + b)[i] in a;
        assert (a + b)[j] == b[j - |a|];
      }
    }
  }

  /** A duplicate-free sequence is as long as its set of elements is large. */
  lemma {:induction false} DistinctCard<T>(s: seq<T>)
    requires Distinct(s)
    ensures |Elems(s)| == |s|
  {
    if |s| > 0 {
      DistinctTail(s);
      DistinctCard(s[1..]);
      assert Elems(s) == {s[0]} + Elems(s[1..]);
    }
  }

  /** In a duplicate-free sequence every element has multiplicity one. */
  lemma {:induction false} DistinctMultiplicity<T>(s: seq<T>)
    requires Distinct(s)
    ensures forall x :: multiset(s)[x] == if x in s then 1 else 0
  {
    if |s| > 0 {
      DistinctTail(s);
      DistinctMultiplicity(s[1..]);
      assert s == [s[0]] + s[1..];
      assert multiset(s) == multiset{s[0]} + multiset(s[1..]);
    }
  }

  /** Two duplicate-free sequences with the same elements are permutations of each other. */
  lemma SameElemsSameMultiset<T>(a: seq<T>, b: seq<T>)
    requires Distinct(a) && Distinct(b)
    requires Elems(a) == Elems(b)
    ensures multiset(a) == multiset(b)
  {
    DistinctMultiplicity(a);
    DistinctMultiplicity(b);
    forall x
      ensures multiset(a)[x] == multiset(b)[x]
    {
      assert x in a <==> x in Elems(a);
      assert x in b <==> x in Elems(b);
    }
  }

  /** The only duplicate-free sequence holding exactly `{x}` is `[x]`. */
  lemma SingletonEnumeration<T>(s: seq<T>, x: T)
    requires Distinct(s) && Elems(s) == {x}
    ensures s == [x]
  {
    DistinctCard(s);
    assert |s| == 1;
    assert s[0] in Elems(s);
  }

  /** The only duplicate-free sequence with no elements is the empty one. */
  lemma EmptyEnumeration<T>(s: seq<T>)
    requires Distinct(s) && Elems(s) == {}
    ensures s == []
  {
    DistinctCard(s);
  }
}
