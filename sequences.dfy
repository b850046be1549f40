/** Sequence helpers shared by the list and the block allocator, whose elements are object references. */
module Sequences {

  /**
   * The element at position i. Distinct is stated over At rather than over
   * s[i], so that its quantifier is instantiated only where a proof names
   * positions through At (as DistinctAt does) and not at every index
   * into a sequence.
   */
  function At<T>(s: seq<T>, i: nat): T
    requires i < |s|
  {
    s[i]
  }

  /** No reference occurs twice: a ring or block list never links an element in two places. */
  predicate Distinct<T(==)>(s: seq<T>)
  {
    forall i, j | 0 <= i < j < |s| :: At(s, i) != At(s, j)
  }

  /** Two positions of a sequence without repeats hold different elements. */
  lemma DistinctAt<T>(s: seq<T>, i: nat, j: nat)
    requires Distinct(s) && i < |s| && j < |s| && i != j
    ensures s[i] != s[j]
  {
    if i < j {
      assert At(s, i) != At(s, j);
    } else {
      assert At(s, j) != At(s, i);
    }
  }

  /** Appending an element not yet present keeps a sequence without repeats. */
  lemma DistinctAppend<T>(s: seq<T>, x: T)
    requires Distinct(s) && x !in s
    ensures Distinct(s + [x])
  {
    var r := s + [x];
    forall a, b | 0 <= a < b < |r| ensures At(r, a) != At(r, b) {
      if b < |s| {
        DistinctAt(s, a, b);
      }
    }
  }

  /** The position of an element, found by walking from the front. */
  function IndexOf<T(==)>(s: seq<T>, x: T): (i: nat)
    requires x in s
    ensures i < |s| && s[i] == x
    ensures forall j | 0 <= j < i :: s[j] != x
  {
    if s[0] == x then 0 else 1 + IndexOf(s[1..], x)
  }

  /** In a sequence without repeats, an element's position is the only one holding it. */
  lemma IndexOfDistinct<T>(s: seq<T>, i: nat)
    requires Distinct(s) && i < |s|
    ensures IndexOf(s, s[i]) == i
  {
    var j := IndexOf(s, s[i]);
    if j != i {
      DistinctAt(s, i, j);
    }
  }

  /** The sequence with position i left out. */
  function RemoveAt<T>(s: seq<T>, i: nat): (r: seq<T>)
    requires i < |s|
    ensures |r| == |s| - 1
    ensures forall j | 0 <= j < i :: r[j] == s[j]
    ensures forall j | i <= j < |r| :: r[j] == s[j + 1]
  {
    s[..i] + s[i + 1..]
  }

  /** Leaving an element out keeps the others distinct and removes only that one. */
  lemma RemoveAtDistinct<T>(s: seq<T>, i: nat)
    requires Distinct(s) && i < |s|
    ensures Distinct(RemoveAt(s, i))
    ensures forall x :: x in RemoveAt(s, i) <==> x in s && x != s[i]
  {
    var r := RemoveAt(s, i);
    forall a, b | 0 <= a < b < |r| ensures At(r, a) != At(r, b) {
      DistinctAt(s, if a < i then a else a + 1, if b < i then b else b + 1);
    }
    forall x | x in r ensures x != s[i] {
      var j :| 0 <= j < |r| && r[j] == x;
      DistinctAt(s, i, if j < i then j else j + 1);
    }
    forall x | x in s && x != s[i] ensures x in r {
      var j :| 0 <= j < |s| && s[j] == x;
      if j < i {
        assert r[j] == x;
      } else {
        assert r[j - 1] == x;
      }
    }
  }
}
