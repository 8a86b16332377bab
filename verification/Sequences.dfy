/** Facts about concatenation, stated once so that proofs can cite them. */
module Sequences {
  lemma Assoc<T>(a: seq<T>, b: seq<T>, c: seq<T>)
    ensures (a + b) + c == a + (b + c)
  {}

  lemma DropInLeft<T>(a: seq<T>, b: seq<T>, n: nat)
    requires n <= |a|
    ensures (a + b)[n..] == a[n..] + b
  {}

  lemma TakeInLeft<T>(a: seq<T>, b: seq<T>, n: nat)
    requires n <= |a|
    ensures (a + b)[..n] == a[..n]
  {}

  lemma DropTwice<T>(s: seq<T>, m: nat, n: nat)
    requires m + n <= |s|
    ensures s[m..][n..] == s[m + n..]
  {}

  lemma SplitAt<T>(s: seq<T>, m: nat, n: nat)
    requires m + n <= |s|
    ensures s[..m] + s[m..][..n] == s[..m + n]
  {}

  lemma ThreeParts<T>(a: seq<T>, b: seq<T>, c: seq<T>)
    ensures var s := a + b + c;
      |s| == |a| + |b| + |c| && s[..|a|] == a && s[|a|..|a| + |b|] == b && s[|a| + |b|..] == c
  {}

  lemma OneMore<T>(s: seq<T>, n: nat)
    requires n < |s|
    ensures s[..n] + [s[n]] == s[..n + 1] && s[n..][0] == s[n] && s[n..][1..] == s[n + 1..]
  {}

  lemma Slices<T>(s: seq<T>, n: nat, g: nat, c: nat)
    requires n + g + c <= |s|
    ensures s[n..][..g] == s[n..n + g] && s[..n + g][n..] == s[n..n + g] && s[..n + g][..n] == s[..n]
    ensures s[n..][g..g + c] == s[n + g..n + g + c] && s[n + g..][..c] == s[n + g..n + g + c]
  {}

  // ----- lists without duplicates -----

  predicate NoDuplicates<T(==)>(s: seq<T>) {
    forall i, j :: 0 <= i < j < |s| ==> s[i] != s[j]
  }

  function Without<T>(s: seq<T>, n: nat): (r: seq<T>)
    requires n < |s|
  {
    s[..n] + s[n + 1..]
  }

  lemma SplitOut<T>(s: seq<T>, n: nat)
    requires n < |s|
    ensures s == s[..n] + ([s[n]] + s[n + 1..])
  {}

  lemma WithoutIsDistinct<T>(s: seq<T>, n: nat)
    requires NoDuplicates(s) && n < |s|
    ensures NoDuplicates(Without(s, n)) && s[n] !in Without(s, n) && s[n] !in s[..n] && s[n] !in s[n + 1..]
    ensures forall x :: x in Without(s, n) <==> x in s && x != s[n]
  {
    var rest := Without(s, n);
    assert forall i :: 0 <= i < |rest| ==> rest[i] == s[if i < n then i else i + 1];
    assert forall j :: 0 <= j < |s| && j != n ==> s[j] == rest[if j < n then j else j - 1];
  }

  lemma AppendIsDistinct<T>(s: seq<T>, x: T)
    requires NoDuplicates(s) && x !in s
    ensures NoDuplicates(s + [x]) && forall y :: y in s + [x] <==> y in s || y == x
  {}

  lemma {:induction false} DistinctCountsOne<T>(s: seq<T>, x: T)
    requires NoDuplicates(s)
    ensures multiset(s)[x] == if x in s then 1 else 0
  {
    if s != [] {
      assert s == [s[0]] + s[1..];
      DistinctCountsOne(s[1..], x);
    }
  }
}
