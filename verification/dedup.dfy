/** `uniqueArray` of depa.js: an order-preserving removal of duplicates
    that also drops empty (falsy) entries. */
module Dedup {

  predicate NoDups<T(==)>(s: seq<T>) {
    forall i, j :: 0 <= i < j < |s| ==> s[i] != s[j]
  }

  /** `arr.filter(...)` with a `flags` object: an item is kept when it is
      non-empty and not flagged yet. The flagged items are exactly the
      ones kept so far, so the filter is written over the kept prefix. */
  function UniqueArray(s: seq<string>): (r: seq<string>)
    ensures NoDups(r) && "" !in r
    ensures forall x :: x in r <==> x in s && x != ""
    ensures |r| <= |s|
  {
    if |s| == 0 then []
    else
      var r := UniqueArray(s[..|s| - 1]);
      var x := s[|s| - 1];
      assert s == s[..|s| - 1] + [x];
      if x == "" || x in r then r else r + [x]
  }

  /** Index of the first occurrence of `x`. */
  function IndexOf<T(==)>(s: seq<T>, x: T): (i: nat)
    requires x in s
    ensures i < |s| && s[i] == x && x !in s[..i]
  {
    if s[0] == x then 0
    else
      var i := 1 + IndexOf(s[1..], x);
      assert s[..i] == [s[0]] + s[1..][..i - 1];
      i
  }

  /** The first occurrence is the only position holding `x` with no `x` before it. */
  lemma {:induction false} IndexOfUnique<T>(s: seq<T>, x: T, i: nat)
    requires i < |s| && s[i] == x && x !in s[..i]
    ensures IndexOf(s, x) == i
  {
    if i > 0 {
      assert s[..i][0] == s[0];
      assert s[1..][..i - 1] == s[1..i];
      assert s[..i] == [s[0]] + s[1..i];
      IndexOfUnique(s[1..], x, i - 1);
    }
  }

  lemma IndexOfPrefix<T>(s: seq<T>, n: nat, x: T)
    requires n <= |s| && x in s[..n]
    ensures x in s && IndexOf(s, x) == IndexOf(s[..n], x)
  {
    var i := IndexOf(s[..n], x);
    assert s[..n][..i] == s[..i];
    IndexOfUnique(s, x, i);
  }

  /** The result lists the values in the order of their first occurrence,
      which together with the membership and duplicate-freedom contract
      determines it completely. */
  lemma {:induction false} UniqueArrayOrder(s: seq<string>)
    ensures forall i, j :: 0 <= i < j < |UniqueArray(s)| ==>
      IndexOf(s, UniqueArray(s)[i]) < IndexOf(s, UniqueArray(s)[j])
  {
    if |s| > 0 {
      var p := s[..|s| - 1];
      var r := UniqueArray(p);
      var x := s[|s| - 1];
      UniqueArrayOrder(p);
      assert s[..|s| - 1] == p;
      forall y | y in r
        ensures IndexOf(s, y) == IndexOf(p, y) < |s| - 1
      {
        IndexOfPrefix(s, |s| - 1, y);
      }
      if !(x == "" || x in r) {
        assert x !in p;
        assert IndexOf(s, x) == |s| - 1;
        var u := r + [x];
        assert UniqueArray(s) == u;
        forall i, j | 0 <= i < j < |u|
          ensures IndexOf(s, u[i]) < IndexOf(s, u[j])
        {
          assert u[i] == r[i];
          if j < |r| {
            assert u[j] == r[j];
          }
        }
      }
    }
  }

  /** Adding items at the end never disturbs what was kept before. */
  lemma {:induction false} UniqueArrayPrefix(a: seq<string>, b: seq<string>)
    ensures UniqueArray(a) <= UniqueArray(a + b)
    decreases |b|
  {
    if |b| > 0 {
      var b' := b[..|b| - 1];
      UniqueArrayPrefix(a, b');
      assert (a + b)[..|a + b| - 1] == a + b';
    } else {
      assert a + b == a;
    }
  }

  /** A list that is already duplicate-free and has no empty entry is kept as is. */
  lemma {:induction false} UniqueArrayFixed(s: seq<string>)
    requires NoDups(s) && "" !in s
    ensures UniqueArray(s) == s
  {
    if |s| > 0 {
      var p := s[..|s| - 1];
      UniqueArrayFixed(p);
      assert s[|s| - 1] !in p;
      assert p + [s[|s| - 1]] == s;
    }
  }

  lemma UniqueArrayIdempotent(s: seq<string>)
    ensures UniqueArray(UniqueArray(s)) == UniqueArray(s)
  {
    UniqueArrayFixed(UniqueArray(s));
  }
}
