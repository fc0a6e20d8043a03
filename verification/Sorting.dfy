/** sort.Slice, and Go's order on strings. */
module Sorting {

  /** Byte-wise, as Go compares strings. */
  predicate Less(a: string, b: string) {
    if b == "" then false
    else if a == "" then true
    else if a[0] != b[0] then a[0] < b[0]
    else Less(a[1..], b[1..])
  }

  /** At the first place where they differ the smaller has the smaller character, or ends. */
  lemma {:induction false} LessIff(a: string, b: string)
    ensures Less(a, b) <==>
            exists k: nat :: k <= |a| && k < |b| && a[..k] == b[..k] && (k == |a| || a[k] < b[k])
  {
    if a != "" && b != "" && a[0] == b[0] {
      LessIff(a[1..], b[1..]);
      if k: nat :| k <= |a| && k < |b| && a[..k] == b[..k] && (k == |a| || a[k] < b[k]) {
        assert k > 0;
        assert a[1..][..k - 1] == a[..k][1..] && b[1..][..k - 1] == b[..k][1..];
      }
      var x, y := a[1..], b[1..];
      if k: nat :| k <= |x| && k < |y| && x[..k] == y[..k] && (k == |x| || x[k] < y[k]) {
        assert a[..k + 1] == [a[0]] + x[..k] && b[..k + 1] == [b[0]] + y[..k];
      }
    } else if a == "" && b != "" {
      assert a[..0] == b[..0];
    } else if a != "" && b != "" {
      assert a[..0] == b[..0];
      assert forall k: nat :: 0 < k <= |a| && k < |b| ==> a[..k][0] == a[0] && b[..k][0] == b[0];
    }
  }

  lemma {:induction false} LessIrreflexive(a: string)
    ensures !Less(a, a)
  {
    if a != "" {
      LessIrreflexive(a[1..]);
    }
  }

  lemma {:induction false} LessTransitive(a: string, b: string, c: string)
    requires Less(a, b) && Less(b, c)
    ensures Less(a, c)
  {
    if a != "" && a[0] == b[0] && b[0] == c[0] {
      LessTransitive(a[1..], b[1..], c[1..]);
    }
  }

  ghost predicate StrictOrder<T(!new)>(before: (T, T) -> bool) {
    && (forall x :: !before(x, x))
    && (forall x, y, z :: before(x, y) && before(y, z) ==> before(x, z))
  }

  /** No element stands behind one it should stand before. */
  ghost predicate Sorted<T(!new)>(s: seq<T>, before: (T, T) -> bool) {
    forall i, j :: 0 <= i < j < |s| ==> !before(s[j], s[i])
  }

  ghost predicate IsSortOf<T(!new)>(sorted: seq<T>, s: seq<T>, before: (T, T) -> bool) {
    Sorted(sorted, before) && multiset(sorted) == multiset(s)
  }

  method Sort<T(!new)>(s: seq<T>, before: (T, T) -> bool) returns (sorted: seq<T>)
    requires StrictOrder(before)
    ensures IsSortOf(sorted, s, before)
  {
    sorted := [];
    for i := 0 to |s|
      invariant IsSortOf(sorted, s[..i], before)
    {
      sorted := Insert(s[i], sorted, before);
      assert s[..i + 1] == s[..i] + [s[i]];
    }
    assert s[..|s|] == s;
  }

  method Insert<T(!new)>(x: T, s: seq<T>, before: (T, T) -> bool) returns (r: seq<T>)
    requires StrictOrder(before) && Sorted(s, before)
    ensures Sorted(r, before) && multiset(r) == multiset(s) + multiset{x}
  {
    var k := 0;
    while k < |s| && !before(x, s[k])
      invariant 0 <= k <= |s| && forall i :: 0 <= i < k ==> !before(x, s[i])
    {
      k := k + 1;
    }
    r := s[..k] + [x] + s[k..];
    InsertedIsSorted(x, s, k, before);
    assert s == s[..k] + s[k..];
  }

  lemma InsertedIsSorted<T(!new)>(x: T, s: seq<T>, k: nat, before: (T, T) -> bool)
    requires StrictOrder(before) && Sorted(s, before) && k <= |s|
    requires forall i :: 0 <= i < k ==> !before(x, s[i])
    requires k < |s| ==> before(x, s[k])
    ensures Sorted(s[..k] + [x] + s[k..], before)
  {
    var r := s[..k] + [x] + s[k..];
    assert forall j :: k <= j < |s| ==> !before(s[j], x) by {
      assert forall j :: k < j < |s| ==> !before(s[j], s[k]);
    }
    assert forall j :: k < j < |r| ==> r[j] == s[j - 1];
  }
}
