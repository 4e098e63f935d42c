/** Sorting of byte strings, and why the order they were collected in cannot be seen afterwards. */
module Ordering {
  import opened Bytes

  /** Byte-wise lexicographic order. */
  predicate Leq(a: Bytes, b: Bytes) {
    a == [] || (b != [] && (a[0] < b[0] || (a[0] == b[0] && Leq(a[1..], b[1..]))))
  }

  /** The first position where the strings differ, and `a` has the smaller byte there. */
  predicate FallsBelowAt(a: Bytes, b: Bytes, k: nat) {
    k < |a| && k < |b| && a[k] < b[k] && forall i | 0 <= i < k :: a[i] == b[i]
  }

  lemma FallsBelowLater(a: Bytes, b: Bytes, k: nat)
    requires a != [] && b != []
    ensures FallsBelowAt(a, b, k + 1) <==> a[0] == b[0] && FallsBelowAt(a[1..], b[1..], k)
  {
    if a[0] == b[0] && FallsBelowAt(a[1..], b[1..], k) {
      forall i | 0 <= i < k + 1 ensures a[i] == b[i] {
        assert i > 0 ==> a[1..][i - 1] == b[1..][i - 1];
      }
    }
  }

  lemma PrefixLater(a: Bytes, b: Bytes)
    requires a != [] && b != []
    ensures a <= b <==> a[0] == b[0] && a[1..] <= b[1..]
  {
    assert a == [a[0]] + a[1..] && b == [b[0]] + b[1..];
  }

  /** What the order means: one string goes on where the other ends, or has the smaller byte where they
      first differ. */
  lemma {:induction false} LeqExactly(a: Bytes, b: Bytes)
    ensures Leq(a, b) <==> a <= b || exists k: nat :: FallsBelowAt(a, b, k)
  {
    if a != [] && b != [] {
      LeqExactly(a[1..], b[1..]);
      PrefixLater(a, b);
      if Leq(a, b) && a[0] == b[0] && !(a <= b) {
        var k: nat :| FallsBelowAt(a[1..], b[1..], k);
        FallsBelowLater(a, b, k);
      } else if a[0] < b[0] {
        assert FallsBelowAt(a, b, 0);
      }
      if k: nat :| FallsBelowAt(a, b, k) {
        if k > 0 {
          FallsBelowLater(a, b, k - 1);
        }
      }
    }
  }

  lemma {:induction false} LeqTotal(a: Bytes, b: Bytes)
    ensures Leq(a, b) || Leq(b, a)
  {
    if a != [] && b != [] && a[0] == b[0] {
      LeqTotal(a[1..], b[1..]);
    }
  }

  lemma {:induction false} LeqAntisymmetric(a: Bytes, b: Bytes)
    requires Leq(a, b) && Leq(b, a)
    ensures a == b
  {
    if a != [] {
      LeqAntisymmetric(a[1..], b[1..]);
      assert a == [a[0]] + a[1..] && b == [b[0]] + b[1..];
    }
  }

  lemma {:induction false} LeqTransitive(a: Bytes, b: Bytes, c: Bytes)
    requires Leq(a, b) && Leq(b, c)
    ensures Leq(a, c)
  {
    if a != [] && a[0] == b[0] && b[0] == c[0] {
      LeqTransitive(a[1..], b[1..], c[1..]);
    }
  }

  predicate Sorted(s: seq<Bytes>) {
    forall i, j | 0 <= i < j < |s| :: Leq(s[i], s[j])
  }

  function Insert(x: Bytes, s: seq<Bytes>): (r: seq<Bytes>)
    ensures multiset(r) == multiset(s) + multiset{x}
  {
    if s == [] then [x]
    else if Leq(x, s[0]) then [x] + s
    else
      assert s == [s[0]] + s[1..];
      [s[0]] + Insert(x, s[1..])
  }

  function Sort(s: seq<Bytes>): (r: seq<Bytes>)
    ensures multiset(r) == multiset(s)
  {
    if s == [] then []
    else
      assert s == [s[0]] + s[1..];
      Insert(s[0], Sort(s[1..]))
  }

  lemma {:induction false} InsertKeepsSorted(x: Bytes, s: seq<Bytes>)
    requires Sorted(s)
    ensures Sorted(Insert(x, s))
  {
    if s != [] {
      if Leq(x, s[0]) {
        forall j | 0 < j < |s| ensures Leq(x, s[j]) {
          LeqTransitive(x, s[0], s[j]);
        }
        SortedCons(x, s);
      } else {
        var r := Insert(x, s[1..]);
        InsertKeepsSorted(x, s[1..]);
        LeqTotal(x, s[0]);
        forall j | 0 <= j < |r| ensures Leq(s[0], r[j]) {
          assert r[j] in multiset(s[1..]) + multiset{x};
        }
        SortedCons(s[0], r);
      }
    }
  }

  lemma SortedCons(x: Bytes, s: seq<Bytes>)
    requires Sorted(s) && forall j | 0 <= j < |s| :: Leq(x, s[j])
    ensures Sorted([x] + s)
  {
    var r := [x] + s;
    forall i, j | 0 <= i < j < |r| ensures Leq(r[i], r[j]) {
      if i > 0 {
        assert r[i] == s[i - 1] && r[j] == s[j - 1];
      }
    }
  }

  lemma {:induction false} SortSorts(s: seq<Bytes>)
    ensures Sorted(Sort(s))
  {
    if s != [] {
      SortSorts(s[1..]);
      InsertKeepsSorted(s[0], Sort(s[1..]));
    }
  }

  /** There is one sorted arrangement of given elements. */
  lemma {:induction false} SortedUnique(a: seq<Bytes>, b: seq<Bytes>)
    requires Sorted(a) && Sorted(b) && multiset(a) == multiset(b)
    ensures a == b
  {
    if a == [] {
      assert |multiset(b)| == |b|;
    } else {
      assert a[0] in multiset(b);
      assert b != [] && b[0] in multiset(a);
      FirstIsLeast(a, b[0]);
      FirstIsLeast(b, a[0]);
      LeqAntisymmetric(a[0], b[0]);
      WithoutFirst(a);
      WithoutFirst(b);
      SortedUnique(a[1..], b[1..]);
    }
  }

  lemma WithoutFirst(s: seq<Bytes>)
    requires s != []
    ensures s == [s[0]] + s[1..] && multiset(s[1..]) == multiset(s) - multiset{s[0]}
    ensures Sorted(s) ==> Sorted(s[1..])
  {
    assert s == [s[0]] + s[1..];
  }

  lemma FirstIsLeast(s: seq<Bytes>, x: Bytes)
    requires Sorted(s) && x in s
    ensures Leq(s[0], x)
  {
    LeqReflexive(x);
  }

  lemma LeqReflexive(a: Bytes)
    ensures Leq(a, a)
  {
    LeqTotal(a, a);
  }

  lemma SortForgetsOrder(a: seq<Bytes>, b: seq<Bytes>)
    requires multiset(a) == multiset(b)
    ensures Sort(a) == Sort(b)
  {
    SortSorts(a);
    SortSorts(b);
    SortedUnique(Sort(a), Sort(b));
  }

  // ---- Listing a set ----

  /** The elements of a set, each once, in some order. */
  ghost function Listing(s: set<Bytes>): (r: seq<Bytes>)
    ensures multiset(r) == multiset(s)
  {
    if s == {} then []
    else
      var x :| x in s;
      assert s == (s - {x}) + {x};
      [x] + Listing(s - {x})
  }

  predicate Distinct(names: seq<Bytes>) {
    forall i, j | 0 <= i < j < |names| :: names[i] != names[j]
  }

  lemma ListingIsDistinct(names: seq<Bytes>, s: set<Bytes>)
    requires multiset(names) == multiset(s)
    ensures Distinct(names) && forall name :: name in names <==> name in s
  {
    forall i, j | 0 <= i < j < |names| ensures names[i] != names[j] {
      var x := names[j];
      assert names == names[..j] + [x] + names[j + 1..];
      assert multiset(names)[x] == multiset(names[..j])[x] + 1 + multiset(names[j + 1..])[x];
      assert multiset(names)[x] <= 1;
      assert x !in names[..j];
    }
    assert forall name :: name in names <==> name in multiset(names);
  }

  ghost function SortedElements(s: set<Bytes>): (r: seq<Bytes>)
    ensures multiset(r) == multiset(s)
  {
    Sort(Listing(s))
  }

  /** Collects a set in whatever order its elements come, then sorts them. */
  method SortKeys(s: set<Bytes>) returns (r: seq<Bytes>)
    ensures r == SortedElements(s)
  {
    var rest, listed := s, [];
    while rest != {}
      invariant rest <= s
      invariant multiset(listed) + multiset(rest) == multiset(s)
    {
      var x :| x in rest;
      rest, listed := rest - {x}, listed + [x];
    }
    SortForgetsOrder(listed, Listing(s));
    r := Sort(listed);
  }
}
