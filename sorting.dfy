/** Sorting by a string key, as `sort_unstable` and `sort_unstable_by` are used
    in the bot: the standard library promises a permutation ordered by the key,
    which is all the contracts below state. */
module Sorting {

  import opened Text

  /** The identity key, for sorting strings themselves. */
  function Id(s: string): string { s }

  ghost predicate SortedBy<T>(s: seq<T>, key: T -> string) {
    forall i, j :: 0 <= i < j < |s| ==> LessEq(key(s[i]), key(s[j]))
  }

  /** Putting an element no greater than the head in front keeps a list sorted. */
  lemma InsertFront<T>(x: T, s: seq<T>, key: T -> string)
    requires s == [] || LessEq(key(x), key(s[0]))
    ensures SortedBy(s, key) ==> SortedBy([x] + s, key)
  {
    if SortedBy(s, key) && s != [] {
      forall j | 0 < j < |s| + 1 ensures LessEq(key(x), key(([x] + s)[j])) {
        if j > 1 { LessEqTransitive(key(x), key(s[0]), key(s[j - 1])); }
      }
    }
  }

  /** A head no greater than anything behind it keeps a sorted tail sorted. */
  lemma ConsSorted<T>(y: T, rest: seq<T>, key: T -> string)
    requires SortedBy(rest, key)
    requires forall j :: 0 <= j < |rest| ==> LessEq(key(y), key(rest[j]))
    ensures SortedBy([y] + rest, key)
  {
    forall i, j | 0 <= i < j < |rest| + 1 ensures LessEq(key(([y] + rest)[i]), key(([y] + rest)[j])) {
      if i > 0 { assert ([y] + rest)[i] == rest[i - 1]; }
      assert ([y] + rest)[j] == rest[j - 1];
    }
  }

  /** The head of a sorted list is no greater than anything its tail holds, even with
      one more element no smaller than it. */
  lemma HeadBelow<T>(x: T, s: seq<T>, rest: seq<T>, key: T -> string)
    requires s != [] && SortedBy(s, key) && LessEq(key(s[0]), key(x))
    requires multiset(rest) == multiset(s[1..]) + multiset{x}
    ensures forall j :: 0 <= j < |rest| ==> LessEq(key(s[0]), key(rest[j]))
  {
    forall j | 0 <= j < |rest| ensures LessEq(key(s[0]), key(rest[j])) {
      assert rest[j] in multiset(rest);
      if rest[j] != x {
        assert rest[j] in multiset(s[1..]);
        var k :| 0 <= k < |s[1..]| && s[1..][k] == rest[j];
        assert s[k + 1] == rest[j];
      }
    }
  }

  /** Keeping the head in front of a sorted insertion into the tail keeps the list sorted. */
  lemma InsertBehind<T>(x: T, s: seq<T>, rest: seq<T>, key: T -> string)
    requires s != [] && LessEq(key(s[0]), key(x))
    requires multiset(rest) == multiset(s[1..]) + multiset{x}
    requires SortedBy(s[1..], key) ==> SortedBy(rest, key)
    ensures SortedBy(s, key) ==> SortedBy([s[0]] + rest, key)
  {
    if SortedBy(s, key) {
      SortedTail1(s, key);
      HeadBelow(x, s, rest, key);
      ConsSorted(s[0], rest, key);
    }
  }

  function Insert<T>(x: T, s: seq<T>, key: T -> string): (r: seq<T>)
    ensures multiset(r) == multiset(s) + multiset{x}
    ensures |r| == |s| + 1
    ensures SortedBy(s, key) ==> SortedBy(r, key)
  {
    if s == [] || LessEq(key(x), key(s[0])) then
      InsertFront(x, s, key);
      [x] + s
    else
      var rest := Insert(x, s[1..], key);
      assert s == [s[0]] + s[1..];
      LessEqTotal(key(x), key(s[0]));
      InsertBehind(x, s, rest, key);
      [s[0]] + rest
  }

  lemma SortedTail1<T>(s: seq<T>, key: T -> string)
    requires SortedBy(s, key) && s != []
    ensures SortedBy(s[1..], key)
  {
    forall i, j | 0 <= i < j < |s| - 1 ensures LessEq(key(s[1..][i]), key(s[1..][j])) {
      assert s[1..][i] == s[i + 1] && s[1..][j] == s[j + 1];
    }
  }

  /** Insertion sort: a permutation of `s` ordered by `key`. */
  function SortBy<T>(s: seq<T>, key: T -> string): (r: seq<T>)
    ensures multiset(r) == multiset(s)
    ensures |r| == |s|
    ensures SortedBy(r, key)
  {
    if s == [] then []
    else
      assert s == [s[0]] + s[1..];
      Insert(s[0], SortBy(s[1..], key), key)
  }

  /** Sorting strings (with their own order as the key). */
  function Sort(s: seq<string>): (r: seq<string>)
    ensures multiset(r) == multiset(s)
    ensures SortedBy(r, Id)
  {
    SortBy(s, Id)
  }

  /** A single string is already sorted. */
  lemma SortSingleton(x: string)
    ensures Sort([x]) == [x]
  {
    var r := Sort([x]);
    assert |r| == |multiset(r)| == 1;
    assert r[0] in multiset([x]);
  }

  lemma SortedHeadLeast(s: seq<string>, x: string)
    requires SortedBy(s, Id) && x in s
    ensures LessEq(s[0], x)
  {
    var k :| 0 <= k < |s| && s[k] == x;
    if k == 0 { LessEqReflexive(x); }
  }

  lemma MultisetTail(a: seq<string>, b: seq<string>)
    requires a != [] && b != [] && a[0] == b[0] && multiset(a) == multiset(b)
    ensures multiset(a[1..]) == multiset(b[1..])
  {
    assert a == [a[0]] + a[1..] && b == [b[0]] + b[1..];
    assert multiset(a[1..]) == multiset(a) - multiset{a[0]};
    assert multiset(b[1..]) == multiset(b) - multiset{b[0]};
  }

  /** Strings are totally ordered, so two sorted permutations of the same strings are
      equal: how an unstable sort breaks ties cannot be observed. */
  lemma {:induction false} SortedUnique(a: seq<string>, b: seq<string>)
    requires SortedBy(a, Id) && SortedBy(b, Id)
    requires multiset(a) == multiset(b)
    ensures a == b
    decreases |a|
  {
    assert |a| == |multiset(a)| == |multiset(b)| == |b|;
    if a != [] {
      assert a[0] in multiset(b) && b[0] in multiset(a);
      SortedHeadLeast(b, a[0]);
      SortedHeadLeast(a, b[0]);
      LessEqAntisymmetric(a[0], b[0]);
      MultisetTail(a, b);
      SortedTail1(a, Id);
      SortedTail1(b, Id);
      SortedUnique(a[1..], b[1..]);
      assert a == [a[0]] + a[1..] && b == [b[0]] + b[1..];
    }
  }

  /** Exchanging two elements keeps the multiset. */
  lemma SwapPermutes<T>(s: seq<T>, i: nat, j: nat)
    requires i < |s| && j < |s|
    ensures multiset(s[i := s[j]][j := s[i]]) == multiset(s)
  {
    var t := s[i := s[j]];
    assert multiset(t) == multiset(s) - multiset{s[i]} + multiset{s[j]};
  }

  /** `s[..i + 1]` is sorted except that `s[j]` may be out of place. */
  ghost predicate SortedExcept<T>(s: seq<T>, i: nat, j: nat, key: T -> string) {
    i < |s| && forall p, q :: 0 <= p < q <= i && q != j ==> LessEq(key(s[p]), key(s[q]))
  }

  lemma SiftStart<T>(s: seq<T>, i: nat, key: T -> string)
    requires i < |s| && SortedBy(s[..i], key)
    ensures SortedExcept(s, i, i, key)
  {
    forall p, q | 0 <= p < q <= i && q != i ensures LessEq(key(s[p]), key(s[q])) {
      assert s[p] == s[..i][p] && s[q] == s[..i][q];
    }
  }

  /** Swapping the misplaced element with a greater left neighbour moves the gap left. */
  lemma SiftStep<T>(s: seq<T>, i: nat, j: nat, key: T -> string)
    requires SortedExcept(s, i, j, key) && 0 < j <= i
    requires !LessEq(key(s[j - 1]), key(s[j]))
    ensures SortedExcept(s[j - 1 := s[j]][j := s[j - 1]], i, j - 1, key)
    ensures multiset(s[j - 1 := s[j]][j := s[j - 1]]) == multiset(s)
  {
    LessEqTotal(key(s[j - 1]), key(s[j]));
    var t := s[j - 1 := s[j]][j := s[j - 1]];
    forall p, q | 0 <= p < q <= i && q != j - 1 ensures LessEq(key(t[p]), key(t[q])) {
      if q == j {
        if p < j - 1 { assert t[p] == s[p]; }
      } else if p == j - 1 {
        assert LessEq(key(s[j]), key(s[q]));
      } else if p == j {
        assert LessEq(key(s[j - 1]), key(s[q]));
      }
    }
    SwapPermutes(s, j - 1, j);
  }

  lemma SiftDone<T>(s: seq<T>, i: nat, j: nat, key: T -> string)
    requires SortedExcept(s, i, j, key) && j <= i
    requires j == 0 || LessEq(key(s[j - 1]), key(s[j]))
    ensures SortedBy(s[..i + 1], key)
  {
    forall p, q | 0 <= p < q <= i ensures LessEq(key(s[p]), key(s[q])) {
      if q == j && p < j - 1 { LessEqTransitive(key(s[p]), key(s[j - 1]), key(s[j])); }
    }
    assert forall p :: 0 <= p <= i ==> s[..i + 1][p] == s[p];
  }

  /** One pass of insertion sort: move `a[i]` left to its place in the sorted `a[..i]`. */
  method SiftDown<T>(a: array<T>, i: nat, key: T -> string)
    requires i < a.Length && SortedBy(a[..i], key)
    modifies a
    ensures SortedBy(a[..i + 1], key)
    ensures multiset(a[..]) == old(multiset(a[..]))
  {
    SiftStart(a[..], i, key);
    var j := i;
    while j > 0 && !LessEq(key(a[j - 1]), key(a[j]))
      invariant 0 <= j <= i
      invariant SortedExcept(a[..], i, j, key)
      invariant multiset(a[..]) == old(multiset(a[..]))
    {
      ghost var before := a[..];
      SiftStep(before, i, j, key);
      a[j - 1], a[j] := a[j], a[j - 1];
      assert a[..] == before[j - 1 := before[j]][j := before[j - 1]];
      j := j - 1;
    }
    SiftDone(a[..], i, j, key);
  }

  /** `sort_unstable` and `sort_unstable_by` on a vector, ordered by `key`: insertion
      sort in place. */
  method SortInPlace<T>(a: array<T>, key: T -> string)
    modifies a
    ensures SortedBy(a[..], key)
    ensures multiset(a[..]) == old(multiset(a[..]))
  {
    if a.Length == 0 { return; }
    var i := 1;
    while i < a.Length
      invariant 1 <= i <= a.Length
      invariant SortedBy(a[..i], key)
      invariant multiset(a[..]) == old(multiset(a[..]))
    {
      SiftDown(a, i, key);
      i := i + 1;
    }
    assert a[..] == a[..a.Length];
  }
}
