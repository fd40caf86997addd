/** What the tools rely on `qsort` for: the elements in the order of a comparison. */
module Qsort {

  ghost predicate TotalPreorder<T(!new)>(le: (T, T) -> bool) {
    && (forall x, y :: le(x, y) || le(y, x))
    && forall x, y, z :: le(x, y) && le(y, z) ==> le(x, z)
  }

  ghost predicate Sorted<T>(s: seq<T>, le: (T, T) -> bool) {
    forall i, j | 0 <= i < j < |s| :: le(s[i], s[j])
  }

  lemma Chain<T(!new)>(le: (T, T) -> bool, x: T, y: T, z: T)
    requires TotalPreorder(le) && le(x, y) && le(y, z)
    ensures le(x, z)
  {
  }

  lemma Other<T(!new)>(le: (T, T) -> bool, x: T, y: T)
    requires TotalPreorder(le) && !le(x, y)
    ensures le(y, x)
  {
  }

  lemma InsertPair<T(!new)>(s: seq<T>, k: nat, x: T, le: (T, T) -> bool, i: nat, j: nat)
    requires TotalPreorder(le) && Sorted(s, le) && i < j <= |s| && k <= |s|
    requires k > 0 ==> le(s[k - 1], x)
    requires k < |s| ==> !le(s[k], x)
    ensures var r := s[..k] + [x] + s[k..]; le(r[i], r[j])
  {
    hide TotalPreorder;
    var r := s[..k] + [x] + s[k..];
    assert r[i] == if i < k then s[i] else if i == k then x else s[i - 1];
    assert r[j] == if j < k then s[j] else if j == k then x else s[j - 1];
    if j == k && i < k - 1 {
      Chain(le, s[i], s[k - 1], x);
    } else if i == k {
      Other(le, s[k], x);
      if j > k + 1 { Chain(le, x, s[k], s[j - 1]); }
    }
  }

  lemma InsertSorts<T(!new)>(s: seq<T>, k: nat, x: T, le: (T, T) -> bool)
    requires TotalPreorder(le) && Sorted(s, le) && k <= |s|
    requires k > 0 ==> le(s[k - 1], x)
    requires k < |s| ==> !le(s[k], x)
    ensures Sorted(s[..k] + [x] + s[k..], le)
  {
    var r := s[..k] + [x] + s[k..];
    assert |r| == |s| + 1;
    hide TotalPreorder;
    forall i: nat, j: nat | i < j < |r| ensures le(r[i], r[j]) { InsertPair(s, k, x, le, i, j); }
  }

  lemma InsertAdds<T>(s: seq<T>, k: nat, x: T)
    requires k <= |s|
    ensures multiset(s[..k] + [x] + s[k..]) == multiset(s) + multiset{x}
  {
    assert s == s[..k] + s[k..];
  }

  method Insert<T(!new)>(s: seq<T>, x: T, le: (T, T) -> bool) returns (r: seq<T>)
    requires TotalPreorder(le) && Sorted(s, le)
    ensures Sorted(r, le) && multiset(r) == multiset(s) + multiset{x}
  {
    hide TotalPreorder, Sorted;
    var k := |s|;
    while k > 0 && !le(s[k - 1], x)
      invariant 0 <= k <= |s| && (k < |s| ==> !le(s[k], x))
    {
      k := k - 1;
    }
    InsertSorts(s, k, x, le);
    InsertAdds(s, k, x);
    r := s[..k] + [x] + s[k..];
  }

  method Sort<T(!new)>(s: seq<T>, le: (T, T) -> bool) returns (r: seq<T>)
    requires TotalPreorder(le)
    ensures Sorted(r, le) && multiset(r) == multiset(s)
  {
    hide TotalPreorder;
    r := [];
    for i := 0 to |s|
      invariant Sorted(r, le) && multiset(r) == multiset(s[..i])
    {
      r := Insert(r, s[i], le);
      assert s[..i + 1] == s[..i] + [s[i]];
    }
    assert s[..|s|] == s;
  }
}
