/** Order-preserving removal from sequences, the shape of every delete in the store. */
module Seqs {

  /** No element occurs twice. */
  ghost predicate Distinct<T>(s: seq<T>)
  {
    forall i, j :: 0 <= i < j < |s| ==> s[i] != s[j]
  }

  function Elems<T>(s: seq<T>): set<T>
  {
    set x | x in s
  }

  /** `s` with every element of `gone` removed and the others kept in their order. */
  function Without<T(==)>(s: seq<T>, gone: set<T>): (r: seq<T>)
    ensures forall i :: 0 <= i < |r| ==> r[i] in s && r[i] !in gone
    ensures forall i :: 0 <= i < |s| && s[i] !in gone ==> s[i] in r
    ensures |r| <= |s|
  {
    if s == [] then [] else (if s[0] in gone then [] else [s[0]]) + Without(s[1..], gone)
  }

  lemma {:induction false} WithoutDistinct<T>(s: seq<T>, gone: set<T>)
    requires Distinct(s)
    ensures Distinct(Without(s, gone))
  {
    if s != [] {
      assert Distinct(s[1..]);
      WithoutDistinct(s[1..], gone);
      assert s[0] !in s[1..];
    }
  }

  /** Removal distributes over concatenation: what is kept keeps its order. */
  lemma {:induction false} WithoutAppend<T>(a: seq<T>, b: seq<T>, gone: set<T>)
    ensures Without(a + b, gone) == Without(a, gone) + Without(b, gone)
  {
    if a == [] {
      assert a + b == b;
    } else {
      assert (a + b)[1..] == a[1..] + b;
      WithoutAppend(a[1..], b, gone);
    }
  }

  /** Removing `a` and then `b` is removing both at once. */
  lemma {:induction false} WithoutTwice<T>(s: seq<T>, a: set<T>, b: set<T>)
    ensures Without(Without(s, a), b) == Without(s, a + b)
  {
    if s != [] {
      var head := if s[0] in a then [] else [s[0]];
      WithoutAppend(head, Without(s[1..], a), b);
      WithoutTwice(s[1..], a, b);
    }
  }

  /** Nothing to remove: the sequence is kept as it is. */
  lemma {:induction false} WithoutNothing<T>(s: seq<T>, gone: set<T>)
    requires forall x :: x in s ==> x !in gone
    ensures Without(s, gone) == s
  {
    if s != [] {
      WithoutNothing(s[1..], gone);
    }
  }

  /** In a sequence without repeats, removing one element cuts out exactly its position. */
  lemma WithoutAt<T>(s: seq<T>, i: int)
    requires Distinct(s) && 0 <= i < |s|
    ensures Without(s, {s[i]}) == s[..i] + s[i+1..]
    ensures |Without(s, {s[i]})| == |s| - 1
  {
    var x := s[i];
    var before, after := s[..i], s[i+1..];
    assert s == before + ([x] + after);
    assert forall y :: y in before ==> y !in {x} by {
      forall y | y in before ensures y != x {
        var j :| 0 <= j < |before| && before[j] == y;
        assert s[j] == y;
      }
    }
    assert forall y :: y in after ==> y !in {x} by {
      forall y | y in after ensures y != x {
        var j :| 0 <= j < |after| && after[j] == y;
        assert s[i + 1 + j] == y;
      }
    }
    WithoutNothing(before, {x});
    WithoutNothing(after, {x});
    assert Without([x], {x}) == [];
    WithoutAppend([x], after, {x});
    assert Without([x] + after, {x}) == after;
    WithoutAppend(before, [x] + after, {x});
    assert Without(before + ([x] + after), {x}) == before + after;
  }

  /**
   * Deleting the elements of `d` one at a time: after the first k deletions the (k+1)-th is
   * still present, and deleting it extends the deleted set by one.
   */
  lemma WithoutStep<T>(s: seq<T>, d: seq<T>, k: int)
    requires Distinct(d) && 0 <= k < |d| && d[k] in s
    ensures d[k] in Without(s, Elems(d[..k]))
    ensures Without(Without(s, Elems(d[..k])), {d[k]}) == Without(s, Elems(d[..k + 1]))
  {
    assert d[..k + 1] == d[..k] + [d[k]];
    assert Elems(d[..k]) + {d[k]} == Elems(d[..k + 1]);
    assert d[k] !in d[..k];
    var i :| 0 <= i < |s| && s[i] == d[k];
    WithoutTwice(s, Elems(d[..k]), {d[k]});
  }

  lemma WithoutNone<T>(s: seq<T>, d: seq<T>)
    ensures Without(s, Elems(d[..0])) == s
  {
    assert Elems(d[..0]) == {};
    WithoutNothing(s, {});
  }

  lemma IndexOf<T>(s: seq<T>, x: T) returns (i: int)
    requires x in s
    ensures 0 <= i < |s| && s[i] == x
  {
    i :| 0 <= i < |s| && s[i] == x;
  }
}
