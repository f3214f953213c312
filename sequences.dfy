/** Sequence helpers for the polyline model: the last element, reversal (what
    `slice(...).reverse()` computes on a copy), and the pairing of the two
    parallel coordinate arrays of a polyline into one sequence of points. */
module Sequences {

  function Last<T>(s: seq<T>): T
    requires |s| > 0
  {
    s[|s| - 1]
  }

  /** The elements of `s` in the opposite order. */
  function Reverse<T>(s: seq<T>): seq<T>
  {
    seq(|s|, k requires 0 <= k < |s| => s[|s| - 1 - k])
  }

  /** Pairs the i-th elements of two sequences of equal length. */
  function Zip<A, B>(xs: seq<A>, ys: seq<B>): seq<(A, B)>
    requires |xs| == |ys|
  {
    seq(|xs|, k requires 0 <= k < |xs| => (xs[k], ys[k]))
  }

  /** Reversing peels the last element off to the front. */
  lemma ReverseFront<T>(s: seq<T>)
    requires |s| > 0
    ensures Reverse(s) == [Last(s)] + Reverse(s[..|s| - 1])
  {
    assert Reverse(s) == [Last(s)] + Reverse(s[..|s| - 1]);
  }

  /** Reversing moves the first element to the back. */
  lemma ReverseBack<T>(s: seq<T>)
    requires |s| > 0
    ensures Reverse(s) == Reverse(s[1..]) + [s[0]]
  {
    assert Reverse(s) == Reverse(s[1..]) + [s[0]];
  }

  lemma ZipAppend<A, B>(xs: seq<A>, xs': seq<A>, ys: seq<B>, ys': seq<B>)
    requires |xs| == |ys| && |xs'| == |ys'|
    ensures Zip(xs + xs', ys + ys') == Zip(xs, ys) + Zip(xs', ys')
  {
    assert Zip(xs + xs', ys + ys') == Zip(xs, ys) + Zip(xs', ys');
  }

  lemma ZipReverse<A, B>(xs: seq<A>, ys: seq<B>)
    requires |xs| == |ys|
    ensures Zip(Reverse(xs), Reverse(ys)) == Reverse(Zip(xs, ys))
  {
    assert Zip(Reverse(xs), Reverse(ys)) == Reverse(Zip(xs, ys));
  }

  /** No element occurs twice. */
  predicate NoDuplicates<T(==)>(s: seq<T>)
  {
    forall a, b :: 0 <= a < b < |s| ==> s[a] != s[b]
  }

  lemma NoDuplicatesAppend<T>(s: seq<T>, t: seq<T>)
    requires NoDuplicates(s) && NoDuplicates(t)
    requires forall k :: 0 <= k < |s| ==> s[k] !in t
    ensures NoDuplicates(s + t)
  {
    forall a, b | 0 <= a < b < |s + t|
      ensures (s + t)[a] != (s + t)[b]
    {
      if a < |s| && |s| <= b {
        assert (s + t)[a] == s[a] && (s + t)[b] in t;
      }
    }
  }

  /** `s` without its element at index `j`: what `splice(j, 1)` leaves. */
  function RemoveAt<T>(s: seq<T>, j: nat): (r: seq<T>)
    requires j < |s|
    ensures |r| == |s| - 1
    ensures forall k :: 0 <= k < j ==> r[k] == s[k]
    ensures forall k :: j <= k < |r| ==> r[k] == s[k + 1]
  {
    s[..j] + s[j + 1..]
  }

  /** Removing an element after index `i`, even once the element at `i` has
      been replaced, leaves the elements before `i` alone. */
  lemma RemoveAtPrefix<T>(s: seq<T>, i: nat, j: nat, x: T)
    requires i < j < |s|
    ensures RemoveAt(s, j)[..i] == s[..i]
    ensures RemoveAt(s[i := x], j)[..i] == s[..i]
  {
  }

  lemma RemoveAtNoDuplicates<T>(s: seq<T>, j: nat)
    requires j < |s| && NoDuplicates(s)
    ensures NoDuplicates(RemoveAt(s, j))
  {
    var r := RemoveAt(s, j);
    forall a, b | 0 <= a < b < |r|
      ensures r[a] != r[b]
    {
      var a', b' := if a < j then a else a + 1, if b < j then b else b + 1;
      assert r[a] == s[a'] && r[b] == s[b'] && a' < b';
    }
  }
}
