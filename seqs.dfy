/** The array combinators the source uses (`map`, `filter`, a summing `reduce`),
    as functions on sequences, with the facts about them that the model needs:
    they distribute over concatenation and only see the multiset of their input. */
module Seqs {

  /** `s.map(f)`. */
  function Map<A, B>(f: A -> B, s: seq<A>): (r: seq<B>)
    ensures |r| == |s|
    ensures forall i :: 0 <= i < |s| ==> r[i] == f(s[i])
  {
    seq(|s|, i requires 0 <= i < |s| => f(s[i]))
  }

  /** `s.filter(p)`: the elements satisfying p, in their original order. */
  function Filter<T(!new)>(p: T -> bool, s: seq<T>): (r: seq<T>)
    ensures |r| <= |s|
  {
    if s == [] then []
    else Filter(p, s[..|s| - 1]) + (if p(s[|s| - 1]) then [s[|s| - 1]] else [])
  }

  /** `s.reduce((acc, x) => acc + f(x), 0)`, folded from the left as `reduce` does. */
  function Sum<T>(f: T -> real, s: seq<T>): real
  {
    if s == [] then 0.0 else Sum(f, s[..|s| - 1]) + f(s[|s| - 1])
  }

  /** An element survives the filter exactly when it occurs in s and satisfies p. */
  lemma {:induction false} FilterMembers<T(!new)>(p: T -> bool, s: seq<T>, x: T)
    ensures x in Filter(p, s) <==> x in s && p(x)
  {
    if s != [] {
      FilterMembers(p, s[..|s| - 1], x);
      assert s == s[..|s| - 1] + [s[|s| - 1]];
    }
  }

  lemma {:induction false} FilterAppend<T(!new)>(p: T -> bool, a: seq<T>, b: seq<T>)
    ensures Filter(p, a + b) == Filter(p, a) + Filter(p, b)
  {
    if b != [] {
      assert (a + b)[..|a + b| - 1] == a + b[..|b| - 1];
      FilterAppend(p, a, b[..|b| - 1]);
    } else {
      assert a + b == a;
    }
  }

  lemma {:induction false} SumAppend<T>(f: T -> real, a: seq<T>, b: seq<T>)
    ensures Sum(f, a + b) == Sum(f, a) + Sum(f, b)
  {
    if b != [] {
      assert (a + b)[..|a + b| - 1] == a + b[..|b| - 1];
      SumAppend(f, a, b[..|b| - 1]);
    } else {
      assert a + b == a;
    }
  }

  lemma MapAppend<A, B>(f: A -> B, a: seq<A>, b: seq<A>)
    ensures Map(f, a + b) == Map(f, a) + Map(f, b)
  {
    assert forall i :: 0 <= i < |a + b| ==> Map(f, a + b)[i] == (Map(f, a) + Map(f, b))[i];
  }

  /** If a and b hold the same multiset, the last element of a occurs somewhere
      in b, and removing it from both leaves two permutations of each other. */
  lemma RemoveLast<T>(a: seq<T>, b: seq<T>) returns (i: nat)
    requires |a| > 0 && multiset(a) == multiset(b)
    ensures i < |b| && b[i] == a[|a| - 1]
    ensures b == b[..i] + [b[i]] + b[i + 1..]
    ensures multiset(a[..|a| - 1]) == multiset(b[..i] + b[i + 1..])
  {
    var x := a[|a| - 1];
    assert a == a[..|a| - 1] + [x];
    assert x in multiset(b);
    i :| 0 <= i < |b| && b[i] == x;
    assert b == b[..i] + [b[i]] + b[i + 1..];
    var rest := b[..i] + b[i + 1..];
    assert multiset(rest) == multiset(b[..i]) + multiset(b[i + 1..]);
    assert multiset(b) == multiset(b[..i]) + multiset{x} + multiset(b[i + 1..]);
    assert multiset(a) == multiset(a[..|a| - 1]) + multiset{x};
    assert multiset(a[..|a| - 1]) == multiset(a) - multiset{x};
    assert multiset(rest) == multiset(b) - multiset{x};
  }

  lemma {:induction false} SumPermutation<T>(f: T -> real, a: seq<T>, b: seq<T>)
    requires multiset(a) == multiset(b)
    ensures Sum(f, a) == Sum(f, b)
    decreases |a|
  {
    if a == [] {
      assert |b| == |multiset(b)| == 0;
    } else {
      var i := RemoveLast(a, b);
      SumPermutation(f, a[..|a| - 1], b[..i] + b[i + 1..]);
      SumAppend(f, b[..i], b[i + 1..]);
      SumAppend(f, b[..i] + [b[i]], b[i + 1..]);
      SumAppend(f, b[..i], [b[i]]);
      assert Sum(f, [b[i]]) == f(b[i]) by { assert [b[i]][..0] == []; }
    }
  }

  lemma {:induction false} FilterPermutation<T(!new)>(p: T -> bool, a: seq<T>, b: seq<T>)
    requires multiset(a) == multiset(b)
    ensures multiset(Filter(p, a)) == multiset(Filter(p, b))
    decreases |a|
  {
    if a == [] {
      assert |b| == |multiset(b)| == 0;
    } else {
      var i := RemoveLast(a, b);
      var x, before, after := b[i], b[..i], b[i + 1..];
      FilterPermutation(p, a[..|a| - 1], before + after);
      FilterAround(p, before, x, after);
      FilterAppend(p, before, after);
      var one := if p(x) then [x] else [];
      var fa, fbe, faf := Filter(p, a[..|a| - 1]), Filter(p, before), Filter(p, after);
      assert Filter(p, a) == fa + one;
      assert multiset(Filter(p, b)) == multiset(fbe) + multiset(one) + multiset(faf);
    }
  }

  /** Filtering around one element. */
  lemma FilterAround<T(!new)>(p: T -> bool, before: seq<T>, x: T, after: seq<T>)
    ensures Filter(p, before + [x] + after) == Filter(p, before) + (if p(x) then [x] else []) + Filter(p, after)
  {
    FilterAppend(p, before + [x], after);
    FilterAppend(p, before, [x]);
    assert Filter(p, [x]) == (if p(x) then [x] else []) by { assert [x][..0] == []; }
  }

  lemma {:induction false} MapPermutation<A, B>(f: A -> B, a: seq<A>, b: seq<A>)
    requires multiset(a) == multiset(b)
    ensures multiset(Map(f, a)) == multiset(Map(f, b))
    decreases |a|
  {
    if a == [] {
      assert |b| == |multiset(b)| == 0;
    } else {
      var i := RemoveLast(a, b);
      MapPermutation(f, a[..|a| - 1], b[..i] + b[i + 1..]);
      MapAppend(f, b[..i], b[i + 1..]);
      MapAppend(f, b[..i] + [b[i]], b[i + 1..]);
      MapAppend(f, b[..i], [b[i]]);
      MapAppend(f, a[..|a| - 1], [a[|a| - 1]]);
      assert a == a[..|a| - 1] + [a[|a| - 1]];
    }
  }

  /** Nothing survives the filter exactly when no element satisfies p. */
  lemma FilterEmpty<T(!new)>(p: T -> bool, s: seq<T>)
    ensures Filter(p, s) == [] <==> forall i :: 0 <= i < |s| ==> !p(s[i])
  {
    if Filter(p, s) != [] {
      var x := Filter(p, s)[0];
      FilterMembers(p, s, x);
    } else {
      forall i | 0 <= i < |s| ensures !p(s[i]) {
        FilterMembers(p, s, s[i]);
      }
    }
  }

  /** If every f(x) lies in [lo, hi], the sum lies in [lo * |s|, hi * |s|]. */
  lemma {:induction false} SumBounds<T>(f: T -> real, s: seq<T>, lo: real, hi: real)
    requires forall i :: 0 <= i < |s| ==> lo <= f(s[i]) <= hi
    ensures lo * |s| as real <= Sum(f, s) <= hi * |s| as real
  {
    if s != [] {
      var n := |s| - 1;
      SumBounds(f, s[..n], lo, hi);
      assert lo * |s| as real == lo * n as real + lo;
      assert hi * |s| as real == hi * n as real + hi;
    }
  }

  lemma SumSingleton<T>(f: T -> real, x: T)
    ensures Sum(f, [x]) == f(x)
  {
    assert [x][..0] == [];
  }

  lemma FilterSingleton<T(!new)>(p: T -> bool, x: T)
    ensures Filter(p, [x]) == if p(x) then [x] else []
  {
    assert [x][..0] == [];
  }

  /** Filter and Sum on a sequence extended by one element. */
  lemma FilterSnoc<T(!new)>(p: T -> bool, s: seq<T>, x: T)
    ensures Filter(p, s + [x]) == Filter(p, s) + (if p(x) then [x] else [])
  {
    assert (s + [x])[..|s|] == s;
  }

  lemma SumSnoc<T>(f: T -> real, s: seq<T>, x: T)
    ensures Sum(f, s + [x]) == Sum(f, s) + f(x)
  {
    assert (s + [x])[..|s|] == s;
  }

  /** Filtering a sequence whose elements all pass keeps it whole. */
  lemma {:induction false} FilterAll<T(!new)>(p: T -> bool, s: seq<T>)
    requires forall x :: x in s ==> p(x)
    ensures Filter(p, s) == s
  {
    if s != [] {
      FilterAll(p, s[..|s| - 1]);
      assert s == s[..|s| - 1] + [s[|s| - 1]];
    }
  }
}
