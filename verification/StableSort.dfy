/** A stable sort, standing for Python's `list.sort` and `sorted`. */
module StableSort {

  ghost predicate TotalPreorder<T(!new)>(leq: (T, T) -> bool) {
    && (forall a, b :: leq(a, b) || leq(b, a))
    && (forall a, b, c :: leq(a, b) && leq(b, c) ==> leq(a, c))
  }

  ghost predicate Sorted<T>(leq: (T, T) -> bool, s: seq<T>) {
    forall i, j | 0 <= i < j < |s| :: leq(s[i], s[j])
  }

  /** Places `x` behind every element not greater, so that equal elements keep their order. */
  function Insert<T>(leq: (T, T) -> bool, s: seq<T>, x: T): seq<T> {
    if s == [] || leq(s[|s| - 1], x) then s + [x]
    else Insert(leq, s[..|s| - 1], x) + [s[|s| - 1]]
  }

  function Sort<T>(leq: (T, T) -> bool, s: seq<T>): seq<T> {
    if s == [] then [] else Insert(leq, Sort(leq, s[..|s| - 1]), s[|s| - 1])
  }

  /** Inserting splits the sorted list at one place: everything before it stays in front, untouched. */
  lemma {:induction false} InsertSplits<T(!new)>(leq: (T, T) -> bool, s: seq<T>, x: T) returns (p: nat)
    requires TotalPreorder(leq) && Sorted(leq, s)
    ensures p <= |s| && Insert(leq, s, x) == s[..p] + [x] + s[p..]
    ensures forall k | 0 <= k < |s| :: k < p <==> leq(s[k], x)
  {
    var n := |s|;
    if s == [] {
      p := 0;
    } else if leq(s[n - 1], x) {
      p := n;
    } else {
      p := InsertSplits(leq, s[..n - 1], x);
      assert s[..n - 1][..p] + [x] + s[..n - 1][p..] + [s[n - 1]] == s[..p] + [x] + s[p..];
      assert forall k | 0 <= k < n - 1 :: s[..n - 1][k] == s[k];
    }
  }

  lemma InsertKeeps<T(!new)>(leq: (T, T) -> bool, s: seq<T>, x: T)
    requires TotalPreorder(leq) && Sorted(leq, s)
    ensures Sorted(leq, Insert(leq, s, x))
    ensures |Insert(leq, s, x)| == |s| + 1
    ensures multiset(Insert(leq, s, x)) == multiset(s) + multiset{x}
  {
    var p := InsertSplits(leq, s, x);
    SplitSorted(leq, s, p, x);
    SplitMultiset(s, p, x);
  }

  lemma SplitSorted<T(!new)>(leq: (T, T) -> bool, s: seq<T>, p: nat, x: T)
    requires TotalPreorder(leq) && Sorted(leq, s) && p <= |s|
    requires forall k | 0 <= k < |s| :: k < p <==> leq(s[k], x)
    ensures Sorted(leq, s[..p] + [x] + s[p..])
  {
    forall k | p <= k < |s| ensures leq(x, s[k]) {
      assert !leq(s[k], x);
    }
  }

  lemma SplitMultiset<T>(s: seq<T>, p: nat, x: T)
    requires p <= |s|
    ensures multiset(s[..p] + [x] + s[p..]) == multiset(s) + multiset{x}
  {
    assert s == s[..p] + s[p..];
  }

  /** The result is ordered and holds exactly the elements of the input. */
  lemma {:induction false} SortSorts<T(!new)>(leq: (T, T) -> bool, s: seq<T>)
    requires TotalPreorder(leq)
    ensures Sorted(leq, Sort(leq, s))
    ensures |Sort(leq, s)| == |s|
    ensures multiset(Sort(leq, s)) == multiset(s)
  {
    if s == [] {
    } else {
      var n := |s| - 1;
      SortSorts(leq, s[..n]);
      InsertKeeps(leq, Sort(leq, s[..n]), s[n]);
      assert multiset(s) == multiset(s[..n]) + multiset{s[n]} by {
        assert s == s[..n] + [s[n]];
      }
    }
  }

  lemma SortMembers<T(!new)>(leq: (T, T) -> bool, s: seq<T>)
    requires TotalPreorder(leq)
    ensures forall x :: x in Sort(leq, s) <==> x in s
  {
    SortSorts(leq, s);
    forall x ensures x in Sort(leq, s) <==> x in s {
      assert x in multiset(Sort(leq, s)) <==> x in multiset(s);
    }
  }

  /** The elements that neither go before `x` nor after it, in order. */
  function Class<T>(leq: (T, T) -> bool, s: seq<T>, x: T): seq<T> {
    if s == [] then []
    else Class(leq, s[..|s| - 1], x) + if leq(s[|s| - 1], x) && leq(x, s[|s| - 1]) then [s[|s| - 1]] else []
  }

  lemma {:induction false} ClassConcat<T>(leq: (T, T) -> bool, a: seq<T>, b: seq<T>, x: T)
    ensures Class(leq, a + b, x) == Class(leq, a, x) + Class(leq, b, x)
  {
    if b == [] {
      assert a + b == a;
    } else {
      ClassConcat(leq, a, b[..|b| - 1], x);
      assert (a + b)[..|a + b| - 1] == a + b[..|b| - 1];
    }
  }

  lemma {:induction false} NoneInClass<T>(leq: (T, T) -> bool, s: seq<T>, x: T)
    requires forall k | 0 <= k < |s| :: !(leq(s[k], x) && leq(x, s[k]))
    ensures Class(leq, s, x) == []
  {
    if s == [] {
    } else {
      NoneInClass(leq, s[..|s| - 1], x);
    }
  }

  lemma {:induction false} ClassSplit<T>(leq: (T, T) -> bool, s: seq<T>, p: nat, e: T, x: T)
    requires p <= |s|
    ensures Class(leq, s, x) == Class(leq, s[..p], x) + Class(leq, s[p..], x)
    ensures Class(leq, s[..p] + [e] + s[p..], x) == Class(leq, s[..p], x) + Class(leq, [e], x) + Class(leq, s[p..], x)
  {
    assert s == s[..p] + s[p..];
    ClassConcat(leq, s[..p], s[p..], x);
    ClassConcat(leq, s[..p] + [e], s[p..], x);
    ClassConcat(leq, s[..p], [e], x);
  }

  lemma {:induction false} InsertStable<T(!new)>(leq: (T, T) -> bool, s: seq<T>, e: T, x: T)
    requires TotalPreorder(leq) && Sorted(leq, s)
    ensures Class(leq, Insert(leq, s, e), x) == Class(leq, s, x) + Class(leq, [e], x)
  {
    var p := InsertSplits(leq, s, e);
    ClassSplit(leq, s, p, e, x);
    if leq(e, x) && leq(x, e) {
      forall k | 0 <= k < |s[p..]| ensures !leq(s[p..][k], e) { assert s[p..][k] == s[p + k]; }
      BehindClass(leq, s[p..], e, x);
    } else {
      NoneInClass(leq, [e], x);
    }
  }

  lemma NotBefore<T(!new)>(leq: (T, T) -> bool, a: T, b: T, c: T)
    requires TotalPreorder(leq) && leq(b, c) && !leq(a, c)
    ensures !leq(a, b)
  {
  }

  /** What does not go before an element of the class is not in it. */
  lemma {:induction false} BehindClass<T(!new)>(leq: (T, T) -> bool, s: seq<T>, e: T, x: T)
    requires TotalPreorder(leq) && leq(x, e) && forall k | 0 <= k < |s| :: !leq(s[k], e)
    ensures Class(leq, s, x) == []
  {
    forall k | 0 <= k < |s| ensures !leq(s[k], x) {
      NotBefore(leq, s[k], x, e);
    }
    NoneInClass(leq, s, x);
  }

  /** Elements that compare equal keep their order. */
  lemma {:induction false} SortStable<T(!new)>(leq: (T, T) -> bool, s: seq<T>, x: T)
    requires TotalPreorder(leq)
    ensures Class(leq, Sort(leq, s), x) == Class(leq, s, x)
  {
    if s == [] {
    } else {
      var n := |s| - 1;
      SortStable(leq, s[..n], x);
      SortSorts(leq, s[..n]);
      InsertStable(leq, Sort(leq, s[..n]), s[n], x);
      ClassLast(leq, s, x);
    }
  }

  lemma {:induction false} ClassLast<T>(leq: (T, T) -> bool, s: seq<T>, x: T)
    requires s != []
    ensures Class(leq, s, x) == Class(leq, s[..|s| - 1], x) + Class(leq, [s[|s| - 1]], x)
  {
    assert s == s[..|s| - 1] + [s[|s| - 1]];
    ClassConcat(leq, s[..|s| - 1], [s[|s| - 1]], x);
  }
}
