/** Helpers shared by the warehouse modules: an optional result (Python's
    `None` for a function that falls off its end) and facts about sequences
    without repeated elements (Python's `len(set(xs)) == len(xs)`) and their
    reorderings. */
module Common {

  datatype Option<T> = None | Some(value: T)

  /** The set of elements of a sequence: Python's `set(xs)`. */
  function Elems<T(==)>(s: seq<T>): set<T>
  {
    set x | x in s
  }

  predicate NoDuplicates<T(==)>(s: seq<T>)
  {
    forall i, j :: 0 <= i < j < |s| ==> s[i] != s[j]
  }

  /** Turning a list into a set never makes it longer, and keeps its length
      exactly when the list has no repeated element. */
  lemma {:induction false} ElemsCardinality<T>(s: seq<T>)
    ensures |Elems(s)| <= |s|
    ensures |Elems(s)| == |s| <==> NoDuplicates(s)
  {
    if s == [] {
      assert Elems(s) == {};
    } else {
      var t, x := s[..|s| - 1], s[|s| - 1];
      assert s == t + [x];
      ElemsCardinality(t);
      assert Elems(s) == Elems(t) + {x};
      if x in t {
        assert Elems(s) == Elems(t);
        var i :| 0 <= i < |t| && t[i] == x;
        assert s[i] == s[|s| - 1];
      } else {
        assert |Elems(s)| == |Elems(t)| + 1;
        if NoDuplicates(t) {
          forall i, j | 0 <= i < j < |s|
            ensures s[i] != s[j]
          {
            assert s[i] == t[i];
            if j < |s| - 1 {
              assert s[j] == t[j];
            }
          }
        }
        if NoDuplicates(s) {
          forall i, j | 0 <= i < j < |t|
            ensures t[i] != t[j]
          {
            assert t[i] == s[i] && t[j] == s[j];
          }
        }
      }
    }
  }

  /** The elements of a non-empty list are those of all but its last
      element, and the last. */
  lemma ElemsSnoc<T>(s: seq<T>)
    requires s != []
    ensures Elems(s) == Elems(s[..|s| - 1]) + {s[|s| - 1]}
  {
    assert s == s[..|s| - 1] + [s[|s| - 1]];
  }

  /** Concatenation is associative; stated once so that callers need not
      rediscover it through sequence extensionality. */
  lemma AppendAssoc<T>(a: seq<T>, b: seq<T>, c: seq<T>)
    ensures (a + b) + c == a + (b + c)
  {
  }

  /** The concatenation of `f(xs[0], 0)`, ..., `f(xs[k - 1], k - 1)`: the
      messages a loop over the first `k` items gathers, item by item. */
  function Gather<T, M>(f: (T, int) -> seq<M>, xs: seq<T>, k: nat): seq<M>
    requires k <= |xs|
  {
    if k == 0 then [] else Gather(f, xs, k - 1) + f(xs[k - 1], k - 1)
  }

  /** Nothing is gathered exactly when no item contributes anything. */
  lemma {:induction false} GatherEmpty<T, M>(f: (T, int) -> seq<M>, xs: seq<T>, k: nat)
    requires k <= |xs|
    ensures Gather(f, xs, k) == [] <==> forall i :: 0 <= i < k ==> f(xs[i], i) == []
  {
    if k > 0 {
      GatherEmpty(f, xs, k - 1);
      var a, b := Gather(f, xs, k - 1), f(xs[k - 1], k - 1);
      assert Gather(f, xs, k) == a + b;
      assert |a + b| == |a| + |b|;
    }
  }

  /** In a list without repeated elements every element occurs once. */
  lemma {:induction false} NoDuplicatesMultiplicity<T>(s: seq<T>, x: T)
    requires NoDuplicates(s)
    ensures multiset(s)[x] == if x in s then 1 else 0
  {
    if s != [] {
      var t, y := s[..|s| - 1], s[|s| - 1];
      assert s == t + [y];
      assert NoDuplicates(t) by {
        forall i, j | 0 <= i < j < |t|
          ensures t[i] != t[j]
        {
          assert t[i] == s[i] && t[j] == s[j];
        }
      }
      NoDuplicatesMultiplicity(t, x);
      assert multiset(s) == multiset(t) + multiset{y};
    }
  }

  /** Two lists without repeated elements that hold the same elements are
      permutations of each other. */
  lemma SamePermutation<T>(a: seq<T>, b: seq<T>)
    requires NoDuplicates(a) && NoDuplicates(b) && Elems(a) == Elems(b)
    ensures multiset(a) == multiset(b)
  {
    forall x
      ensures multiset(a)[x] == multiset(b)[x]
    {
      NoDuplicatesMultiplicity(a, x);
      NoDuplicatesMultiplicity(b, x);
      assert x in a <==> x in Elems(a);
      assert x in b <==> x in Elems(b);
    }
  }

  /** A permutation of a list without repeated elements has the same length,
      the same elements and no repeated element either. */
  lemma PermutationKeepsDistinct<T>(a: seq<T>, b: seq<T>)
    requires multiset(a) == multiset(b) && NoDuplicates(b)
    ensures |a| == |b| && Elems(a) == Elems(b) && NoDuplicates(a)
  {
    assert |a| == |multiset(a)| == |multiset(b)| == |b|;
    forall x
      ensures x in Elems(a) <==> x in Elems(b)
    {
      assert x in a <==> x in multiset(a);
      assert x in b <==> x in multiset(b);
    }
    ElemsCardinality(a);
    ElemsCardinality(b);
  }

  /** A subset as large as its superset is the whole of it. */
  lemma SubsetSameSize<T>(a: set<T>, b: set<T>)
    requires a <= b && |b| <= |a|
    ensures a == b
  {
    assert |b - a| + |a| == |b|;
  }
}
