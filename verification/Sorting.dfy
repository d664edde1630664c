/** `std::sort` as a function: any correct sort of a list without ties gives the list below. */
module Sorting {

  ghost predicate IsTotalOrder<T(!new)>(leq: (T, T) -> bool) {
    && (forall a, b :: leq(a, b) || leq(b, a))
    && (forall a, b, c :: leq(a, b) && leq(b, c) ==> leq(a, c))
  }

  ghost predicate IsSorted<T>(leq: (T, T) -> bool, s: seq<T>) {
    forall i, j :: 0 <= i < j < |s| ==> leq(s[i], s[j])
  }

  function Insert<T>(leq: (T, T) -> bool, x: T, s: seq<T>): (r: seq<T>)
    ensures multiset(r) == multiset(s) + multiset{x}
  {
    if s == [] then [x]
    else if leq(x, s[0]) then [x] + s
    else
      assert s == [s[0]] + s[1..];
      [s[0]] + Insert(leq, x, s[1..])
  }

  function Sort<T>(leq: (T, T) -> bool, s: seq<T>): (r: seq<T>)
    ensures multiset(r) == multiset(s)
  {
    if s == [] then []
    else
      assert s == [s[0]] + s[1..];
      Insert(leq, s[0], Sort(leq, s[1..]))
  }

  lemma SameElements<T>(a: seq<T>, b: seq<T>)
    requires multiset(a) == multiset(b)
    ensures |a| == |b|
    ensures forall x | x in a :: x in b
    ensures forall x | x in b :: x in a
  {
    assert |multiset(a)| == |a| && |multiset(b)| == |b|;
    assert forall x :: x in a ==> x in multiset(a);
    assert forall x :: x in b ==> x in multiset(b);
  }

  lemma {:induction false} InsertSorted<T(!new)>(leq: (T, T) -> bool, x: T, s: seq<T>)
    requires IsTotalOrder(leq) && IsSorted(leq, s)
    ensures IsSorted(leq, Insert(leq, x, s))
  {
    if s != [] && !leq(x, s[0]) {
      var tail := Insert(leq, x, s[1..]);
      InsertSorted(leq, x, s[1..]);
      forall k | 0 <= k < |tail| ensures leq(s[0], tail[k]) {
        assert tail[k] in multiset(tail);
        assert tail[k] == x || tail[k] in s[1..];
      }
    }
  }

  lemma {:induction false} SortSorted<T(!new)>(leq: (T, T) -> bool, s: seq<T>)
    requires IsTotalOrder(leq)
    ensures IsSorted(leq, Sort(leq, s))
  {
    if s != [] {
      SortSorted(leq, s[1..]);
      InsertSorted(leq, s[0], Sort(leq, s[1..]));
    }
  }

  lemma SortedHead<T>(leq: (T, T) -> bool, a: seq<T>, b: seq<T>)
    requires a != [] && IsSorted(leq, a) && multiset(a) == multiset(b)
    ensures b != [] && (a[0] == b[0] || leq(a[0], b[0]))
  {
    SameElements(a, b);
    assert b[0] in a;
    var j :| 0 <= j < |a| && a[j] == b[0];
  }

  lemma RemoveHead<T>(a: seq<T>)
    requires a != []
    ensures multiset(a[1..]) == multiset(a) - multiset{a[0]}
  {
    assert a == [a[0]] + a[1..];
  }

  /** Two sorted arrangements of the same elements are the same list. */
  lemma {:induction false} SortedUnique<T(!new)>(leq: (T, T) -> bool, a: seq<T>, b: seq<T>)
    requires IsSorted(leq, a) && IsSorted(leq, b) && multiset(a) == multiset(b)
    requires forall x, y :: leq(x, y) && leq(y, x) ==> x == y
    ensures a == b
  {
    SameElements(a, b);
    if a != [] {
      SortedHead(leq, a, b);
      SortedHead(leq, b, a);
      var x := a[0];
      assert b[0] == x;
      RemoveHead(a);
      RemoveHead(b);
      SortedUnique(leq, a[1..], b[1..]);
      assert a == [x] + a[1..] && b == [x] + b[1..];
    }
  }

  lemma {:induction false} InsertAgree<T>(f: (T, T) -> bool, g: (T, T) -> bool, x: T, s: seq<T>)
    requires forall y <- s :: f(x, y) == g(x, y)
    ensures Insert(f, x, s) == Insert(g, x, s)
  {
    if s != [] {
      InsertAgree(f, g, x, s[1..]);
    }
  }

  /** Sorting depends only on how the order treats the elements of the list. */
  lemma {:induction false} SortAgree<T>(f: (T, T) -> bool, g: (T, T) -> bool, s: seq<T>)
    requires forall x, y :: x in s && y in s ==> f(x, y) == g(x, y)
    ensures Sort(f, s) == Sort(g, s)
  {
    if s != [] {
      var head, rest := s[0], s[1..];
      assert forall x :: x in rest ==> x in s;
      SortAgree(f, g, rest);
      var tail := Sort(f, rest);
      SameElements(tail, rest);
      assert head in s;
      forall y | y in tail ensures f(head, y) == g(head, y) {
        assert y in rest;
      }
      InsertAgree(f, g, head, tail);
    }
  }

  function Map<S, T>(f: S -> T, s: seq<S>): (r: seq<T>)
    ensures |r| == |s| && forall i :: 0 <= i < |s| ==> r[i] == f(s[i])
  {
    if s == [] then [] else [f(s[0])] + Map(f, s[1..])
  }

  lemma {:induction false} InsertMap<S(!new), T>(leq: (T, T) -> bool, f: S -> T, g: (S, S) -> bool, x: S, s: seq<S>)
    requires forall a, b :: g(a, b) == leq(f(a), f(b))
    ensures Insert(leq, f(x), Map(f, s)) == Map(f, Insert(g, x, s))
  {
    if s != [] {
      InsertMap(leq, f, g, x, s[1..]);
      assert Map(f, s)[1..] == Map(f, s[1..]);
    }
  }

  /** Sorting images is sorting the originals by their images. */
  lemma {:induction false} SortMap<S(!new), T>(leq: (T, T) -> bool, f: S -> T, g: (S, S) -> bool, s: seq<S>)
    requires forall a, b :: g(a, b) == leq(f(a), f(b))
    ensures Sort(leq, Map(f, s)) == Map(f, Sort(g, s))
  {
    if s != [] {
      SortMap(leq, f, g, s[1..]);
      InsertMap(leq, f, g, s[0], Sort(g, s[1..]));
      assert Map(f, s)[1..] == Map(f, s[1..]);
    }
  }

  /** No list holding `x` and `y` is sorted both ways when the two orders disagree on them. */
  lemma NotSortedBothWays<T>(f: (T, T) -> bool, g: (T, T) -> bool, s: seq<T>, x: T, y: T)
    requires IsSorted(f, s) && x in s && y in s && x != y && !f(x, y) && !g(y, x)
    ensures !IsSorted(g, s)
  {
    var i :| 0 <= i < |s| && s[i] == x;
    var j :| 0 <= j < |s| && s[j] == y;
    assert j < i;
  }

  /** `std::string::operator<=`: byte-wise lexicographic order. */
  predicate LexLeq(a: string, b: string) {
    a == [] || (b != [] && (a[0] < b[0] || (a[0] == b[0] && LexLeq(a[1..], b[1..]))))
  }

  lemma {:induction false} LexTotal(a: string, b: string)
    ensures LexLeq(a, b) || LexLeq(b, a)
    ensures LexLeq(a, b) && LexLeq(b, a) ==> a == b
  {
    if a != [] && b != [] && a[0] == b[0] {
      LexTotal(a[1..], b[1..]);
      assert a == [a[0]] + a[1..] && b == [b[0]] + b[1..];
    }
  }

  lemma {:induction false} LexTransitive(a: string, b: string, c: string)
    requires LexLeq(a, b) && LexLeq(b, c)
    ensures LexLeq(a, c)
  {
    if a != [] && a[0] == b[0] == c[0] {
      LexTransitive(a[1..], b[1..], c[1..]);
    }
  }

  lemma LexOrder()
    ensures IsTotalOrder(LexLeq)
    ensures forall x, y :: LexLeq(x, y) && LexLeq(y, x) ==> x == y
  {
    forall a, b ensures LexLeq(a, b) || LexLeq(b, a) { LexTotal(a, b); }
    forall a, b | LexLeq(a, b) && LexLeq(b, a) ensures a == b { LexTotal(a, b); }
    forall a, b, c | LexLeq(a, b) && LexLeq(b, c) ensures LexLeq(a, c) { LexTransitive(a, b, c); }
  }

  /** Whatever algorithm sorts the strings, it gives the list that `Sort` gives. */
  lemma AnySortAgrees(s: seq<string>, sorted: seq<string>)
    requires multiset(sorted) == multiset(s) && IsSorted(LexLeq, sorted)
    ensures sorted == Sort(LexLeq, s)
  {
    LexOrder();
    SortSorted(LexLeq, s);
    SortedUnique(LexLeq, sorted, Sort(LexLeq, s));
  }
}
