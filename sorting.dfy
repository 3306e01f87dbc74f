/** Python's `sorted(xs, key=k, reverse=r)` on string keys, as `sort_tree`
    uses it (rom_duplicate_manager/ui/file_list.py:383-478): a stable sort,
    so that elements with equal keys keep their original order in both
    directions. Written as insertion sort. */
module Sorting {
  import opened Text

  /** Key `a` goes strictly before key `b` in the requested direction. */
  predicate Before(a: string, b: string, desc: bool) {
    if desc then StrLess(b, a) else StrLess(a, b)
  }

  lemma BeforeIrreflexive(a: string, desc: bool)
    ensures !Before(a, a, desc)
  {
    StrLessIrreflexive(a);
  }

  lemma BeforeAsymmetric(a: string, b: string, desc: bool)
    ensures !(Before(a, b, desc) && Before(b, a, desc))
  {
    StrLessAsymmetric(a, b);
  }

  lemma BeforeTransitive(a: string, b: string, c: string, desc: bool)
    requires Before(a, b, desc) && Before(b, c, desc)
    ensures Before(a, c, desc)
  {
    if desc {
      StrLessTransitive(c, b, a);
    } else {
      StrLessTransitive(a, b, c);
    }
  }

  /** If `a` goes before `b` and `c` does not go before `b`, then `a` goes
      before `c`. */
  lemma BeforeNotAfter(a: string, b: string, c: string, desc: bool)
    requires Before(a, b, desc) && !Before(c, b, desc)
    ensures Before(a, c, desc)
  {
    StrLessTotal(b, c);
    if b != c {
      BeforeTransitive(a, b, c, desc);
    }
  }

  /** No element goes strictly before an element on its left. */
  predicate SortedBy<T>(xs: seq<T>, key: T -> string, desc: bool) {
    forall i, j :: 0 <= i < j < |xs| ==> !Before(key(xs[j]), key(xs[i]), desc)
  }

  /** The elements of `xs` whose key is `k`, in order. */
  function WithKey<T>(xs: seq<T>, key: T -> string, k: string): seq<T> {
    if xs == [] then []
    else WithKey(xs[..|xs| - 1], key, k) + (if key(xs[|xs| - 1]) == k then [xs[|xs| - 1]] else [])
  }

  /** Puts `x` after every element of sorted `xs` that it does not go
      before. */
  function Insert<T>(xs: seq<T>, x: T, key: T -> string, desc: bool): (r: seq<T>)
    ensures |r| == |xs| + 1
  {
    if xs == [] then [x]
    else if Before(key(x), key(xs[|xs| - 1]), desc) then
      Insert(xs[..|xs| - 1], x, key, desc) + [xs[|xs| - 1]]
    else xs + [x]
  }

  function SortBy<T>(xs: seq<T>, key: T -> string, desc: bool): (r: seq<T>)
    ensures |r| == |xs|
  {
    if xs == [] then []
    else Insert(SortBy(xs[..|xs| - 1], key, desc), xs[|xs| - 1], key, desc)
  }

  lemma {:induction false} InsertPermutes<T>(xs: seq<T>, x: T, key: T -> string, desc: bool)
    ensures multiset(Insert(xs, x, key, desc)) == multiset(xs) + multiset{x}
  {
    if xs != [] && Before(key(x), key(xs[|xs| - 1]), desc) {
      var n := |xs| - 1;
      InsertPermutes(xs[..n], x, key, desc);
      assert xs == xs[..n] + [xs[n]];
    }
  }

  lemma {:induction false} InsertSorted<T>(xs: seq<T>, x: T, key: T -> string, desc: bool)
    requires SortedBy(xs, key, desc)
    ensures SortedBy(Insert(xs, x, key, desc), key, desc)
  {
    if xs != [] {
      var n := |xs| - 1;
      if Before(key(x), key(xs[n]), desc) {
        InsertSorted(xs[..n], x, key, desc);
        InsertPermutes(xs[..n], x, key, desc);
        InsertedBeforeLast(xs, x, key, desc, Insert(xs[..n], x, key, desc));
      } else {
        AppendedAfterLast(xs, x, key, desc);
      }
    }
  }

  /** Putting the last element back after the sorted insertion into the
      rest keeps the order. */
  lemma InsertedBeforeLast<T>(xs: seq<T>, x: T, key: T -> string, desc: bool, front: seq<T>)
    requires xs != [] && SortedBy(xs, key, desc)
    requires Before(key(x), key(xs[|xs| - 1]), desc)
    requires SortedBy(front, key, desc)
    requires multiset(front) == multiset(xs[..|xs| - 1]) + multiset{x}
    ensures SortedBy(front + [xs[|xs| - 1]], key, desc)
  {
    var n := |xs| - 1;
    var last := xs[n];
    var r := front + [last];
    forall i | 0 <= i < |front|
      ensures !Before(key(last), key(front[i]), desc)
    {
      assert front[i] in multiset(front);
      if front[i] == x {
        BeforeAsymmetric(key(x), key(last), desc);
      } else {
        assert front[i] in multiset(xs[..n]);
        var m :| 0 <= m < n && xs[..n][m] == front[i];
        assert xs[m] == front[i];
      }
    }
    forall i, j | 0 <= i < j < |r|
      ensures !Before(key(r[j]), key(r[i]), desc)
    {
      if j < |front| {
        assert r[i] == front[i] && r[j] == front[j];
      } else {
        assert r[i] == front[i];
      }
    }
  }

  /** An element that does not go before the last one can go at the end. */
  lemma AppendedAfterLast<T>(xs: seq<T>, x: T, key: T -> string, desc: bool)
    requires xs != [] && SortedBy(xs, key, desc)
    requires !Before(key(x), key(xs[|xs| - 1]), desc)
    ensures SortedBy(xs + [x], key, desc)
  {
    var n := |xs| - 1;
    var r := xs + [x];
    forall i | 0 <= i < |xs|
      ensures !Before(key(x), key(xs[i]), desc)
    {
      if i < n && Before(key(x), key(xs[i]), desc) {
        BeforeNotAfter(key(x), key(xs[i]), key(xs[n]), desc);
      }
    }
    forall i, j | 0 <= i < j < |r|
      ensures !Before(key(r[j]), key(r[i]), desc)
    {
      if j < |xs| {
        assert r[i] == xs[i] && r[j] == xs[j];
      } else {
        assert r[i] == xs[i] && r[j] == x;
      }
    }
  }

  /** `x` lands after every element with the same key. */
  lemma {:induction false} InsertStable<T>(xs: seq<T>, x: T, key: T -> string, desc: bool, k: string)
    ensures WithKey(Insert(xs, x, key, desc), key, k)
         == WithKey(xs, key, k) + (if key(x) == k then [x] else [])
  {
    if xs != [] {
      var n := |xs| - 1;
      var last := xs[n];
      if Before(key(x), key(last), desc) {
        InsertStable(xs[..n], x, key, desc, k);
        BeforeIrreflexive(key(x), desc);
        var front := Insert(xs[..n], x, key, desc);
        assert (front + [last])[..|front|] == front;
      } else {
        assert (xs + [x])[..|xs|] == xs;
      }
    }
  }

  /** The sort orders its input, permutes it, and keeps the elements with
      any one key in their original order. */
  lemma SortByCorrect<T>(xs: seq<T>, key: T -> string, desc: bool)
    ensures SortedBy(SortBy(xs, key, desc), key, desc)
    ensures multiset(SortBy(xs, key, desc)) == multiset(xs)
    ensures forall k :: WithKey(SortBy(xs, key, desc), key, k) == WithKey(xs, key, k)
  {
    SortByOrders(xs, key, desc);
    forall k
      ensures WithKey(SortBy(xs, key, desc), key, k) == WithKey(xs, key, k)
    {
      SortByStable(xs, key, desc, k);
    }
  }

  lemma {:induction false} SortByOrders<T>(xs: seq<T>, key: T -> string, desc: bool)
    ensures SortedBy(SortBy(xs, key, desc), key, desc)
    ensures multiset(SortBy(xs, key, desc)) == multiset(xs)
  {
    if xs != [] {
      var n := |xs| - 1;
      SortByOrders(xs[..n], key, desc);
      var s := SortBy(xs[..n], key, desc);
      InsertSorted(s, xs[n], key, desc);
      InsertPermutes(s, xs[n], key, desc);
      assert xs == xs[..n] + [xs[n]];
    }
  }

  lemma {:induction false} SortByStable<T>(xs: seq<T>, key: T -> string, desc: bool, k: string)
    ensures WithKey(SortBy(xs, key, desc), key, k) == WithKey(xs, key, k)
  {
    if xs != [] {
      var n := |xs| - 1;
      SortByStable(xs[..n], key, desc, k);
      InsertStable(SortBy(xs[..n], key, desc), xs[n], key, desc, k);
    }
  }

  /** The elements of `xs` that satisfy `p`, in order (a list comprehension
      with a condition). */
  function Keep<T>(xs: seq<T>, p: T -> bool): (r: seq<T>)
    ensures |r| <= |xs|
    ensures forall i :: 0 <= i < |r| ==> p(r[i])
  {
    if xs == [] then []
    else Keep(xs[..|xs| - 1], p) + (if p(xs[|xs| - 1]) then [xs[|xs| - 1]] else [])
  }

  /** `Keep` keeps exactly the elements that satisfy the condition. */
  lemma {:induction false} KeepMembers<T>(xs: seq<T>, p: T -> bool)
    ensures forall x :: x in Keep(xs, p) <==> x in xs && p(x)
    ensures Keep(xs, p) == [] <==> forall i :: 0 <= i < |xs| ==> !p(xs[i])
  {
    if xs != [] {
      var n := |xs| - 1;
      KeepMembers(xs[..n], p);
      assert xs == xs[..n] + [xs[n]];
      if Keep(xs, p) != [] {
        assert Keep(xs, p)[0] in Keep(xs, p);
      }
    }
  }

  /** Splitting a list by a condition and its negation loses nothing. */
  lemma {:induction false} KeepPartition<T>(xs: seq<T>, p: T -> bool, q: T -> bool)
    requires forall x :: q(x) == !p(x)
    ensures multiset(Keep(xs, p)) + multiset(Keep(xs, q)) == multiset(xs)
  {
    if xs != [] {
      var n := |xs| - 1;
      KeepPartition(xs[..n], p, q);
      assert xs == xs[..n] + [xs[n]];
      assert multiset(xs) == multiset(xs[..n]) + multiset{xs[n]};
      assert q(xs[n]) == !p(xs[n]);
    }
  }

  /** The elements that satisfy `p`, sorted, then the others, sorted: a
      permutation whose first part satisfies `p`, whose second part does
      not, and whose two parts are each in order. */
  lemma PartitionSortEffect<T>(xs: seq<T>, p: T -> bool, q: T -> bool, key: T -> string, desc: bool)
    requires forall x :: q(x) == !p(x)
    ensures var a := SortBy(Keep(xs, p), key, desc);
      var r := a + SortBy(Keep(xs, q), key, desc);
      && |a| == |Keep(xs, p)| && |r| == |xs|
      && multiset(r) == multiset(xs)
      && (forall i :: 0 <= i < |a| ==> p(r[i]))
      && (forall i :: |a| <= i < |r| ==> !p(r[i]))
      && SortedBy(r[..|a|], key, desc)
      && SortedBy(r[|a|..], key, desc)
  {
    PartitionSortPermutes(xs, p, q, key, desc);
    PartitionSortSides(xs, p, q, key, desc);
  }

  lemma PartitionSortPermutes<T>(xs: seq<T>, p: T -> bool, q: T -> bool, key: T -> string, desc: bool)
    requires forall x :: q(x) == !p(x)
    ensures var a := SortBy(Keep(xs, p), key, desc);
      var r := a + SortBy(Keep(xs, q), key, desc);
      |a| == |Keep(xs, p)| && |r| == |xs| && multiset(r) == multiset(xs)
  {
    var front := Keep(xs, p);
    var back := Keep(xs, q);
    SortByOrders(front, key, desc);
    SortByOrders(back, key, desc);
    KeepPartition(xs, p, q);
    var a := SortBy(front, key, desc);
    var r := a + SortBy(back, key, desc);
    assert |a| == |front| by {
      assert |multiset(a)| == |multiset(front)|;
    }
    assert |r| == |xs| by {
      assert |multiset(r)| == |multiset(xs)|;
    }
  }

  lemma PartitionSortSides<T>(xs: seq<T>, p: T -> bool, q: T -> bool, key: T -> string, desc: bool)
    requires forall x :: q(x) == !p(x)
    ensures var a := SortBy(Keep(xs, p), key, desc);
      var r := a + SortBy(Keep(xs, q), key, desc);
      && (forall i :: 0 <= i < |a| ==> p(r[i]))
      && (forall i :: |a| <= i < |r| ==> !p(r[i]))
      && SortedBy(r[..|a|], key, desc)
      && SortedBy(r[|a|..], key, desc)
  {
    var front := Keep(xs, p);
    var back := Keep(xs, q);
    SortByOrders(front, key, desc);
    SortByOrders(back, key, desc);
    ConcatSides(SortBy(front, key, desc), SortBy(back, key, desc), front, back, p, q, key, desc);
  }

  /** Two sorted permutations of two lists, the first of elements that satisfy
      `p`, the second of elements that do not, put one after the other. */
  lemma ConcatSides<T>(a: seq<T>, b: seq<T>, front: seq<T>, back: seq<T>,
                       p: T -> bool, q: T -> bool, key: T -> string, desc: bool)
    requires forall x :: q(x) == !p(x)
    requires multiset(a) == multiset(front) && multiset(b) == multiset(back)
    requires forall i :: 0 <= i < |front| ==> p(front[i])
    requires forall i :: 0 <= i < |back| ==> q(back[i])
    requires SortedBy(a, key, desc) && SortedBy(b, key, desc)
    ensures forall i :: 0 <= i < |a| ==> p((a + b)[i])
    ensures forall i :: |a| <= i < |a + b| ==> !p((a + b)[i])
    ensures SortedBy((a + b)[..|a|], key, desc) && SortedBy((a + b)[|a|..], key, desc)
  {
    var r := a + b;
    AllSatisfy(a, front, p);
    NoneSatisfy(b, back, p, q);
    assert r[..|a|] == a && r[|a|..] == b;
    forall i | |a| <= i < |r|
      ensures !p(r[i])
    {
      assert r[i] == b[i - |a|];
    }
  }

  /** A permutation of a list whose elements all satisfy the negation of `p`
      has no element that satisfies `p`. */
  lemma NoneSatisfy<T>(b: seq<T>, part: seq<T>, p: T -> bool, q: T -> bool)
    requires forall x :: q(x) == !p(x)
    requires multiset(b) == multiset(part)
    requires forall i :: 0 <= i < |part| ==> q(part[i])
    ensures forall i :: 0 <= i < |b| ==> !p(b[i])
  {
    AllSatisfy(b, part, q);
  }

  /** A permutation of a list whose elements all satisfy `p`. */
  lemma AllSatisfy<T>(a: seq<T>, part: seq<T>, p: T -> bool)
    requires multiset(a) == multiset(part)
    requires forall i :: 0 <= i < |part| ==> p(part[i])
    ensures forall i :: 0 <= i < |a| ==> p(a[i])
  {
    forall i | 0 <= i < |a|
      ensures p(a[i])
    {
      assert a[i] in multiset(part);
      var j :| 0 <= j < |part| && part[j] == a[i];
    }
  }
}
