/** Generic sequence operations behind Array.prototype.filter and Array.prototype.reverse. */
module Sequences {

  /** r can be obtained from s by deleting elements, keeping the order of the rest. */
  ghost predicate IsSubsequence<T>(r: seq<T>, s: seq<T>)
    decreases |s|
  {
    r == [] ||
    (s != [] && ((r[0] == s[0] && IsSubsequence(r[1..], s[1..])) || IsSubsequence(r, s[1..])))
  }

  /** Number of positions of s whose element satisfies p. */
  function Count<T>(s: seq<T>, p: T -> bool): (n: nat)
    ensures n <= |s|
  {
    if s == [] then 0 else (if p(s[0]) then 1 else 0) + Count(s[1..], p)
  }

  /** The elements of s that satisfy p, in their original order: what `s.filter(p)` builds. */
  function Select<T(!new)>(s: seq<T>, p: T -> bool): (r: seq<T>)
    ensures |r| <= |s|
    ensures forall i :: 0 <= i < |r| ==> p(r[i])
  {
    if s == [] then []
    else if p(s[0]) then [s[0]] + Select(s[1..], p)
    else Select(s[1..], p)
  }

  /**
   * What Select computes. The first three facts determine r uniquely: a
   * subsequence of s whose every element satisfies p and which is as long
   * as the number of positions of s that satisfy p.
   */
  lemma {:induction false} SelectIsStableSelection<T(!new)>(s: seq<T>, p: T -> bool)
    ensures var r := Select(s, p);
      && IsSubsequence(r, s)
      && (forall i :: 0 <= i < |r| ==> p(r[i]))
      && |r| == Count(s, p)
      && (forall x :: x in r <==> x in s && p(x))
    decreases |s|
  {
    if s != [] {
      SelectIsStableSelection(s[1..], p);
      var r := Select(s, p);
      var rest := Select(s[1..], p);
      if p(s[0]) {
        assert r == [s[0]] + rest && r[1..] == rest;
      } else {
        assert r == rest;
        assert rest == [] || IsSubsequence(rest, s[1..]);
      }
    }
  }

  lemma {:induction false} SelectAppend<T(!new)>(a: seq<T>, b: seq<T>, p: T -> bool)
    ensures Select(a + b, p) == Select(a, p) + Select(b, p)
    decreases |a|
  {
    if a == [] {
      assert a + b == b;
    } else {
      assert (a + b)[1..] == a[1..] + b;
      SelectAppend(a[1..], b, p);
    }
  }

  /** Selecting with a predicate every element satisfies changes nothing. */
  lemma {:induction false} SelectAll<T(!new)>(s: seq<T>, p: T -> bool)
    requires forall x :: x in s ==> p(x)
    ensures Select(s, p) == s
    decreases |s|
  {
    if s != [] {
      SelectAll(s[1..], p);
    }
  }

  /** Two predicates that agree on the elements of s select the same elements. */
  lemma {:induction false} SelectAgree<T(!new)>(s: seq<T>, p: T -> bool, q: T -> bool)
    requires forall x :: x in s ==> p(x) == q(x)
    ensures Select(s, p) == Select(s, q)
    decreases |s|
  {
    if s != [] {
      SelectAgree(s[1..], p, q);
    }
  }

  /** The elements of s in the opposite order (what `s.reverse()` leaves behind). */
  function Reverse<T>(s: seq<T>): (r: seq<T>)
    ensures |r| == |s|
    ensures forall i :: 0 <= i < |s| ==> r[i] == s[|s| - 1 - i]
  {
    if s == [] then [] else [s[|s| - 1]] + Reverse(s[..|s| - 1])
  }

  /** Selecting from the reversed sequence gives the reversed selection. */
  lemma {:induction false} SelectReverse<T(!new)>(s: seq<T>, p: T -> bool)
    ensures Select(Reverse(s), p) == Reverse(Select(s, p))
    decreases |s|
  {
    if s != [] {
      var init, last := s[..|s| - 1], s[|s| - 1];
      assert s == init + [last];
      SelectReverse(init, p);
      assert Reverse(s) == [last] + Reverse(init);
      SelectAppend([last], Reverse(init), p);
      SelectAppend(init, [last], p);
      ReverseAppend(Select(init, p), Select([last], p));
    }
  }

  lemma ReverseAppend<T>(a: seq<T>, b: seq<T>)
    ensures Reverse(a + b) == Reverse(b) + Reverse(a)
  {
    assert forall i :: 0 <= i < |a + b| ==> Reverse(a + b)[i] == (Reverse(b) + Reverse(a))[i];
  }

  lemma ReverseInvolution<T>(s: seq<T>)
    ensures Reverse(Reverse(s)) == s
  {
    assert forall i :: 0 <= i < |s| ==> Reverse(Reverse(s))[i] == s[i];
  }

  lemma {:induction false} ReversePermutes<T>(s: seq<T>)
    ensures multiset(Reverse(s)) == multiset(s)
    decreases |s|
  {
    if s != [] {
      ReversePermutes(s[..|s| - 1]);
      assert s == s[..|s| - 1] + [s[|s| - 1]];
    }
  }

  /** Reverses a in place, as `Array.prototype.reverse` does. */
  method ReverseInPlace<T>(a: array<T>)
    modifies a
    ensures a[..] == Reverse(old(a[..]))
  {
    ghost var before := a[..];
    var lo, hi := 0, a.Length;
    while lo + 1 < hi
      invariant 0 <= lo <= a.Length && lo <= hi && lo + hi == a.Length
      invariant forall k :: 0 <= k < lo ==> a[k] == before[a.Length - 1 - k]
      invariant forall k :: hi <= k < a.Length ==> a[k] == before[a.Length - 1 - k]
      invariant forall k :: lo <= k < hi ==> a[k] == before[k]
    {
      a[lo], a[hi - 1] := a[hi - 1], a[lo];
      lo, hi := lo + 1, hi - 1;
    }
    assert forall k :: 0 <= k < a.Length ==> a[..][k] == Reverse(before)[k];
  }
}
