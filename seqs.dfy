/** Sequence helpers shared by the checkers: option values, first-occurrence
    de-duplication (JavaScript's `Array.from(new Set(xs))`), `slice(0, n)`
    and `join`. */
module Seqs {

  datatype Option<+T> = None | Some(value: T)

  function Min(a: nat, b: nat): nat { if a <= b then a else b }

  /** Index of the first occurrence of x in s, or |s| when x does not occur. */
  function IndexOf<T(==)>(s: seq<T>, x: T): (k: nat)
    ensures k <= |s|
    ensures k < |s| <==> x in s
    ensures k < |s| ==> s[k] == x
    ensures forall j :: 0 <= j < k ==> s[j] != x
  {
    if s == [] then 0 else if s[0] == x then 0 else 1 + IndexOf(s[1..], x)
  }

  lemma {:induction false} IndexOfPrefix<T>(p: seq<T>, q: seq<T>, x: T)
    requires x in p
    ensures IndexOf(p + q, x) == IndexOf(p, x)
  {
    if p[0] != x {
      assert (p + q)[1..] == p[1..] + q;
      IndexOfPrefix(p[1..], q, x);
    }
  }

  lemma {:induction false} IndexOfAbsent<T>(p: seq<T>, x: T)
    requires x !in p
    ensures IndexOf(p + [x], x) == |p|
  {
    if p != [] {
      assert (p + [x])[1..] == p[1..] + [x];
      IndexOfAbsent(p[1..], x);
    }
  }

  predicate Distinct<T(==)>(s: seq<T>) {
    forall i, j :: 0 <= i < j < |s| ==> s[i] != s[j]
  }

  /** `Array.from(new Set(s))`: the elements of s, each once, in the order of
      their first occurrence (UniqueSpec). */
  function Unique<T(==)>(s: seq<T>): (r: seq<T>)
    ensures |r| <= |s|
  {
    if s == [] then []
    else
      var u := Unique(s[..|s| - 1]);
      if s[|s| - 1] in u then u else u + [s[|s| - 1]]
  }

  /** Unique keeps exactly the elements of s, each once, ordered by their
      first occurrence in s: this characterises it completely. */
  lemma UniqueSpec<T>(s: seq<T>)
    ensures var r := Unique(s);
            && (forall i :: 0 <= i < |r| ==> r[i] in s)
            && (forall i :: 0 <= i < |s| ==> s[i] in r)
            && Distinct(r)
            && (forall i, j :: 0 <= i < j < |r| ==> IndexOf(s, r[i]) < IndexOf(s, r[j]))
  {
    UniqueMembers(s);
    UniqueDistinct(s);
    UniqueOrder(s);
  }

  lemma {:induction false} UniqueMembers<T>(s: seq<T>)
    ensures forall i :: 0 <= i < |Unique(s)| ==> Unique(s)[i] in s
    ensures forall i :: 0 <= i < |s| ==> s[i] in Unique(s)
  {
    if s != [] {
      var init := s[..|s| - 1];
      assert s == init + [s[|s| - 1]];
      UniqueMembers(init);
    }
  }

  lemma {:induction false} UniqueDistinct<T>(s: seq<T>)
    ensures Distinct(Unique(s))
  {
    if s != [] {
      UniqueDistinct(s[..|s| - 1]);
    }
  }

  lemma {:induction false} UniqueOrder<T>(s: seq<T>)
    ensures forall i, j :: 0 <= i < j < |Unique(s)| ==> IndexOf(s, Unique(s)[i]) < IndexOf(s, Unique(s)[j])
  {
    if s != [] {
      var init := s[..|s| - 1];
      var last := s[|s| - 1];
      assert s == init + [last];
      UniqueOrder(init);
      UniqueMembers(init);
      var u := Unique(init);
      assert Unique(s) == if last in u then u else u + [last];
      forall k | 0 <= k < |u|
        ensures IndexOf(s, u[k]) == IndexOf(init, u[k]) < |init|
      {
        assert u[k] in init;
        IndexOfPrefix(init, [last], u[k]);
      }
      forall i, j | 0 <= i < j < |u|
        ensures IndexOf(s, u[i]) < IndexOf(s, u[j])
      {
        assert IndexOf(init, u[i]) < IndexOf(init, u[j]);
        assert IndexOf(s, u[i]) == IndexOf(init, u[i]);
        assert IndexOf(s, u[j]) == IndexOf(init, u[j]);
      }
      if last !in u {
        IndexOfAbsent(init, last);
        assert IndexOf(s, last) == |init|;
        var r := u + [last];
        forall i, j | 0 <= i < j < |r|
          ensures IndexOf(s, r[i]) < IndexOf(s, r[j])
        {
          if j < |u| {
            assert r[i] == u[i] && r[j] == u[j];
          } else {
            assert r[i] == u[i] && r[j] == last;
          }
        }
      }
    }
  }

  /** Unique keeps exactly the elements of s. */
  lemma UniqueIn<T>(s: seq<T>, x: T)
    ensures x in Unique(s) <==> x in s
  {
    UniqueMembers(s);
    if x in Unique(s) {
      var i :| 0 <= i < |Unique(s)| && Unique(s)[i] == x;
    }
    if x in s {
      var i :| 0 <= i < |s| && s[i] == x;
    }
  }

  /** `s.map(f)`. */
  function Map<T, U>(s: seq<T>, f: T -> U): (r: seq<U>)
    ensures |r| == |s|
    ensures forall i :: 0 <= i < |s| ==> r[i] == f(s[i])
  {
    seq(|s|, i requires 0 <= i < |s| => f(s[i]))
  }

  /** Under an injective f, de-duplicating the images is taking the images
      of the de-duplicated elements. */
  lemma {:induction false} UniqueMap<T, U>(s: seq<T>, f: T -> U)
    requires forall a, b :: f(a) == f(b) ==> a == b
    ensures Map(Unique(s), f) == Unique(Map(s, f))
  {
    if s != [] {
      var init := s[..|s| - 1];
      var last := s[|s| - 1];
      UniqueMap(init, f);
      assert Map(s, f)[..|s| - 1] == Map(init, f);
      var u := Unique(init);
      if f(last) in Map(u, f) {
        var j :| 0 <= j < |u| && Map(u, f)[j] == f(last);
        assert u[j] == last;
      }
      assert Map(u + [last], f) == Map(u, f) + [f(last)];
    }
  }

  /** Taking out the element at k leaves the rest of the multiset. */
  lemma SpliceMultiset<T>(s: seq<T>, k: nat)
    requires k < |s|
    ensures multiset(s[..k] + s[k + 1..]) + multiset{s[k]} == multiset(s)
  {
    assert s == s[..k] + [s[k]] + s[k + 1..];
  }

  /** `s.slice(0, n)` for a non-negative n. */
  function Prefix<T>(s: seq<T>, n: nat): (r: seq<T>)
    ensures |r| == Min(n, |s|)
    ensures r == s[..|r|]
  {
    s[..Min(n, |s|)]
  }

  /** The images under f of xs[0..n], last first: what a walk builds that
      unshifts f(xs[i]) for i = 0, 1, …, n - 1. */
  function Unshifted<T, U>(xs: seq<T>, n: nat, f: T -> U): (r: seq<U>)
    requires n <= |xs|
    ensures |r| == n
  {
    if n == 0 then [] else [f(xs[n - 1])] + Unshifted(xs, n - 1, f)
  }

  lemma {:induction false} UnshiftedAt<T, U>(xs: seq<T>, n: nat, f: T -> U, k: nat)
    requires k < n <= |xs|
    ensures Unshifted(xs, n, f)[n - 1 - k] == f(xs[k])
  {
    if k < n - 1 {
      UnshiftedAt(xs, n - 1, f, k);
    }
  }

  /** `s.filter(p).length`. */
  function Count<T>(s: seq<T>, p: T -> bool): (n: nat)
    ensures n <= |s|
  {
    if s == [] then 0 else Count(s[..|s| - 1], p) + (if p(s[|s| - 1]) then 1 else 0)
  }

  /** Nothing is counted exactly when no element satisfies p. */
  lemma {:induction false} CountZero<T>(s: seq<T>, p: T -> bool)
    ensures Count(s, p) == 0 <==> forall k :: 0 <= k < |s| ==> !p(s[k])
  {
    if s != [] {
      var init := s[..|s| - 1];
      CountZero(init, p);
      if Count(s, p) == 0 {
        forall k | 0 <= k < |s|
          ensures !p(s[k])
        {
          if k < |init| {
            assert s[k] == init[k];
          }
        }
      } else if !p(s[|s| - 1]) {
        var k :| 0 <= k < |init| && p(init[k]);
        assert s[k] == init[k];
      }
    }
  }

  /** Counts of two complementary predicates add up to the length. */
  lemma {:induction false} CountComplement<T>(s: seq<T>, p: T -> bool, q: T -> bool)
    requires forall k :: 0 <= k < |s| ==> (p(s[k]) <==> !q(s[k]))
    ensures Count(s, p) + Count(s, q) == |s|
  {
    if s != [] {
      var init := s[..|s| - 1];
      forall k | 0 <= k < |init|
        ensures p(init[k]) <==> !q(init[k])
      {
        assert init[k] == s[k];
      }
      CountComplement(init, p, q);
    }
  }

  lemma Regroup<T>(a: seq<T>, b: seq<T>, c: seq<T>, d: seq<T>)
    ensures a + b + c + d == a + (b + c + d)
  {
    assert a + b + c + d == a + (b + c) + d;
  }

  /** `parts.join(sep)`. */
  function Join(parts: seq<string>, sep: string): (r: string)
    ensures parts == [] ==> r == ""
    ensures |parts| == 1 ==> r == parts[0]
  {
    if parts == [] then ""
    else if |parts| == 1 then parts[0]
    else parts[0] + sep + Join(parts[1..], sep)
  }

  /** Joining one more part appends the separator and that part: the joined
      text is the parts in order with sep between each two neighbours. */
  lemma {:induction false} JoinSnoc(parts: seq<string>, p: string, sep: string)
    requires parts != []
    ensures Join(parts + [p], sep) == Join(parts, sep) + sep + p
  {
    if |parts| > 1 {
      assert (parts + [p])[1..] == parts[1..] + [p];
      JoinSnoc(parts[1..], p, sep);
    }
  }

}
