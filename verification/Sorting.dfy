/** The library sort, for any comparison that is total and transitive. */
module Sorting {
  ghost predicate TotalPreorder<T(!new)>(before: (T, T) -> bool) {
    && (forall a, b :: before(a, b) || before(b, a))
    && (forall a, b, c :: before(a, b) && before(b, c) ==> before(a, c))
  }

  predicate InOrder<T>(before: (T, T) -> bool, s: seq<T>) {
    forall i, j :: 0 <= i < j < |s| ==> before(s[i], s[j])
  }

  lemma EmptyInOrder<T>(before: (T, T) -> bool)
    ensures InOrder(before, [])
  {
  }

  /** Sorts by insertion.  The source's sort is not stable, and nothing is promised about
      items that tie. */
  method Sort<T(!new)>(before: (T, T) -> bool, given: seq<T>) returns (sorted: seq<T>)
    requires TotalPreorder(before)
    ensures InOrder(before, sorted) && multiset(sorted) == multiset(given)
  {
    hide InOrder, TotalPreorder;
    sorted := [];
    EmptyInOrder(before);
    for i := 0 to |given|
      invariant InOrder(before, sorted) && multiset(sorted) == multiset(given[..i])
    {
      assert given[..i + 1] == given[..i] + [given[i]];
      sorted := Insert(before, sorted, given[i]);
    }
    assert given[..|given|] == given;
  }

  method Insert<T(!new)>(before: (T, T) -> bool, s: seq<T>, x: T) returns (r: seq<T>)
    requires TotalPreorder(before) && InOrder(before, s)
    ensures InOrder(before, r) && multiset(r) == multiset(s) + multiset{x}
  {
    var i := |s|;
    while i > 0 && !before(s[i - 1], x)
      invariant 0 <= i <= |s|
      invariant i < |s| ==> before(x, s[i])
    {
      i := i - 1;
    }
    InsertedInOrder(before, s, i, x);
    r := s[..i] + [x] + s[i..];
    assert s == s[..i] + s[i..];
  }

  lemma InsertedInOrder<T(!new)>(before: (T, T) -> bool, s: seq<T>, i: nat, x: T)
    requires TotalPreorder(before) && InOrder(before, s) && i <= |s|
    requires i > 0 ==> before(s[i - 1], x)
    requires i < |s| ==> before(x, s[i])
    ensures InOrder(before, s[..i] + [x] + s[i..])
  {
    var r := s[..i] + [x] + s[i..];
    forall j, k | 0 <= j < k < |r|
      ensures before(r[j], r[k])
    {
      assert r[j] == if j < i then s[j] else if j == i then x else s[j - 1];
      assert r[k] == if k < i then s[k] else if k == i then x else s[k - 1];
      assert j < i - 1 ==> before(s[j], s[i - 1]);
      assert k > i + 1 ==> before(s[i], s[k - 1]);
      assert j < i ==> before(s[j], x);
      assert k > i ==> before(x, s[k - 1]);
    }
  }
}
