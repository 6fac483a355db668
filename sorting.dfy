/**
 * Comparator-based stable sorting of films, as `Array.prototype.sort`
 * performs it: a specification (InsertionSorted), its properties, and the
 * in-place algorithm proved to meet it.
 */
module Sorting {
  import opened Films
  import opened Sequences

  /** A comparator as `Array.prototype.sort` takes it: a positive result puts the first argument after the second. */
  type Comparator = (Film, Film) -> int

  /** cmp, read as "not after", is total and transitive on the films in dom. */
  ghost predicate TotalPreorderOn(cmp: Comparator, dom: set<Film>)
  {
    (forall a, b :: a in dom && b in dom ==> cmp(a, b) <= 0 || cmp(b, a) <= 0) &&
    (forall a, b, c :: a in dom && b in dom && c in dom && cmp(a, b) <= 0 && cmp(b, c) <= 0 ==> cmp(a, c) <= 0)
  }

  /** Every element of s is in dom. */
  ghost predicate Within(s: seq<Film>, dom: set<Film>)
  {
    forall i :: 0 <= i < |s| ==> s[i] in dom
  }

  /** No element of s is put after a later one. */
  ghost predicate Sorted(s: seq<Film>, cmp: Comparator)
  {
    forall i, j :: 0 <= i < j < |s| ==> cmp(s[i], s[j]) <= 0
  }

  /** Read backwards, a sorted sequence has no element put before an earlier one. */
  lemma ReverseSorted(s: seq<Film>, cmp: Comparator)
    requires Sorted(s, cmp)
    ensures forall i, j :: 0 <= i < j < |s| ==> cmp(Reverse(s)[j], Reverse(s)[i]) <= 0
  {
  }

  /** a and b are tied: neither goes after the other. */
  predicate Tied(cmp: Comparator, a: Film, b: Film)
  {
    cmp(a, b) <= 0 && cmp(b, a) <= 0
  }

  function TiedWith(cmp: Comparator, e: Film): Film -> bool
  {
    (f: Film) => Tied(cmp, f, e)
  }

  /**
   * One step of a stable insertion sort: x enters s from the right and moves
   * left past every element that goes after it.
   */
  function Insert(s: seq<Film>, x: Film, cmp: Comparator): (r: seq<Film>)
    ensures |r| == |s| + 1
    decreases |s|
  {
    if s == [] then [x]
    else if cmp(s[|s| - 1], x) > 0 then Insert(s[..|s| - 1], x, cmp) + [s[|s| - 1]]
    else s + [x]
  }

  /** The stable sort of s by cmp. */
  function InsertionSorted(s: seq<Film>, cmp: Comparator): (r: seq<Film>)
    ensures |r| == |s|
    decreases |s|
  {
    if s == [] then [] else Insert(InsertionSorted(s[..|s| - 1], cmp), s[|s| - 1], cmp)
  }

  lemma {:induction false} InsertPermutes(s: seq<Film>, x: Film, cmp: Comparator)
    ensures multiset(Insert(s, x, cmp)) == multiset(s) + multiset{x}
    decreases |s|
  {
    if s != [] && cmp(s[|s| - 1], x) > 0 {
      InsertPermutes(s[..|s| - 1], x, cmp);
      assert s == s[..|s| - 1] + [s[|s| - 1]];
    }
  }

  /** The sort only rearranges: the result is a permutation of s. */
  lemma {:induction false} InsertionSortedPermutes(s: seq<Film>, cmp: Comparator)
    ensures multiset(InsertionSorted(s, cmp)) == multiset(s)
    decreases |s|
  {
    if s != [] {
      InsertionSortedPermutes(s[..|s| - 1], cmp);
      InsertPermutes(InsertionSorted(s[..|s| - 1], cmp), s[|s| - 1], cmp);
      assert s == s[..|s| - 1] + [s[|s| - 1]];
    }
  }

  lemma InsertWithin(s: seq<Film>, x: Film, cmp: Comparator, dom: set<Film>)
    requires Within(s, dom) && x in dom
    ensures Within(Insert(s, x, cmp), dom)
  {
    var r := Insert(s, x, cmp);
    InsertPermutes(s, x, cmp);
    forall i | 0 <= i < |r| ensures r[i] in dom {
      assert r[i] in multiset(s) + multiset{x};
      if r[i] in s {
        var k :| 0 <= k < |s| && s[k] == r[i];
      }
    }
  }

  lemma {:induction false} InsertionSortedWithin(s: seq<Film>, cmp: Comparator, dom: set<Film>)
    requires Within(s, dom)
    ensures Within(InsertionSorted(s, cmp), dom)
    decreases |s|
  {
    if s != [] {
      InsertionSortedWithin(s[..|s| - 1], cmp, dom);
      InsertWithin(InsertionSorted(s[..|s| - 1], cmp), s[|s| - 1], cmp, dom);
    }
  }

  /** Appending x keeps s sorted when its last element does not go after x. */
  lemma SortedAppend(s: seq<Film>, x: Film, cmp: Comparator, dom: set<Film>)
    requires s != [] && Sorted(s, cmp)
    requires TotalPreorderOn(cmp, dom) && Within(s, dom) && x in dom
    requires cmp(s[|s| - 1], x) <= 0
    ensures Sorted(s + [x], cmp)
  {
    var last := s[|s| - 1];
    forall i | 0 <= i < |s| - 1 ensures cmp(s[i], x) <= 0 {
      assert s[i] in dom && last in dom;
    }
  }

  /** Appending x keeps t sorted when nothing in t goes after x. */
  lemma SortedAppendAll(t: seq<Film>, x: Film, cmp: Comparator)
    requires Sorted(t, cmp)
    requires forall i :: 0 <= i < |t| ==> cmp(t[i], x) <= 0
    ensures Sorted(t + [x], cmp)
  {
  }

  /** After x moves left past last, nothing in front of last goes after it. */
  lemma InsertBeforeLast(init: seq<Film>, last: Film, x: Film, cmp: Comparator, dom: set<Film>)
    requires Sorted(init + [last], cmp)
    requires TotalPreorderOn(cmp, dom) && last in dom && x in dom
    requires cmp(last, x) > 0
    ensures forall i :: 0 <= i < |Insert(init, x, cmp)| ==> cmp(Insert(init, x, cmp)[i], last) <= 0
  {
    var t := Insert(init, x, cmp);
    InsertPermutes(init, x, cmp);
    forall i | 0 <= i < |t| ensures cmp(t[i], last) <= 0 {
      assert t[i] in multiset(init) + multiset{x};
      if t[i] in init {
        var k :| 0 <= k < |init| && init[k] == t[i];
        assert (init + [last])[k] == t[i] && (init + [last])[|init|] == last;
      }
    }
  }

  lemma {:induction false} InsertSorted(s: seq<Film>, x: Film, cmp: Comparator, dom: set<Film>)
    requires Sorted(s, cmp)
    requires TotalPreorderOn(cmp, dom) && Within(s, dom) && x in dom
    ensures Sorted(Insert(s, x, cmp), cmp)
    decreases |s|
  {
    if s != [] {
      var init, last := s[..|s| - 1], s[|s| - 1];
      if cmp(last, x) > 0 {
        assert s == init + [last];
        InsertSorted(init, x, cmp, dom);
        InsertBeforeLast(init, last, x, cmp, dom);
        SortedAppendAll(Insert(init, x, cmp), last, cmp);
        assert Insert(s, x, cmp) == Insert(init, x, cmp) + [last];
      } else {
        SortedAppend(s, x, cmp, dom);
      }
    }
  }

  /** The stable sort arranges s in order when cmp is a total preorder on the films of s. */
  lemma {:induction false} InsertionSortedIsSorted(s: seq<Film>, cmp: Comparator, dom: set<Film>)
    requires TotalPreorderOn(cmp, dom) && Within(s, dom)
    ensures Sorted(InsertionSorted(s, cmp), cmp)
    decreases |s|
  {
    if s != [] {
      var init := s[..|s| - 1];
      InsertionSortedIsSorted(init, cmp, dom);
      InsertionSortedWithin(init, cmp, dom);
      InsertSorted(InsertionSorted(init, cmp), s[|s| - 1], cmp, dom);
    }
  }

  /** last goes after x, so last and x cannot both be tied with e. */
  lemma NotBothTied(last: Film, x: Film, cmp: Comparator, e: Film, dom: set<Film>)
    requires TotalPreorderOn(cmp, dom) && last in dom && x in dom && e in dom
    requires cmp(last, x) > 0
    ensures !(Tied(cmp, last, e) && Tied(cmp, x, e))
  {
  }

  lemma {:induction false} InsertStable(s: seq<Film>, x: Film, cmp: Comparator, e: Film, dom: set<Film>)
    requires TotalPreorderOn(cmp, dom) && Within(s, dom) && x in dom && e in dom
    ensures Select(Insert(s, x, cmp), TiedWith(cmp, e)) ==
            Select(s, TiedWith(cmp, e)) + Select([x], TiedWith(cmp, e))
    decreases |s|
  {
    var p := TiedWith(cmp, e);
    if s == [] {
      assert Insert(s, x, cmp) == [x];
    } else {
      var init, last := s[..|s| - 1], s[|s| - 1];
      assert s == init + [last];
      SelectAppend(init, [last], p);
      if cmp(last, x) > 0 {
        InsertStable(init, x, cmp, e, dom);
        assert Insert(s, x, cmp) == Insert(init, x, cmp) + [last];
        SelectAppend(Insert(init, x, cmp), [last], p);
        NotBothTied(last, x, cmp, e, dom);
        assert Select([last], p) + Select([x], p) == Select([x], p) + Select([last], p);
      } else {
        SelectAppend(s, [x], p);
      }
    }
  }

  /**
   * Stability: the films tied with any film e appear in the sorted sequence
   * in the same order as in s.
   */
  lemma {:induction false} InsertionSortedIsStable(s: seq<Film>, cmp: Comparator, e: Film, dom: set<Film>)
    requires TotalPreorderOn(cmp, dom) && Within(s, dom) && e in dom
    ensures Select(InsertionSorted(s, cmp), TiedWith(cmp, e)) == Select(s, TiedWith(cmp, e))
    decreases |s|
  {
    if s != [] {
      var init, last := s[..|s| - 1], s[|s| - 1];
      assert s == init + [last];
      InsertionSortedIsStable(init, cmp, e, dom);
      InsertionSortedWithin(init, cmp, dom);
      InsertStable(InsertionSorted(init, cmp), last, cmp, e, dom);
      SelectAppend(init, [last], TiedWith(cmp, e));
    }
  }

  /** One more element moved by the inner loop of SortInPlace. */
  lemma InsertShift(done: seq<Film>, x: Film, cmp: Comparator, j: nat)
    requires 0 < j <= |done| && cmp(done[j - 1], x) > 0
    requires Insert(done, x, cmp) == Insert(done[..j], x, cmp) + done[j..]
    ensures Insert(done, x, cmp) == Insert(done[..j - 1], x, cmp) + done[j - 1..]
  {
    assert done[..j][..j - 1] == done[..j - 1];
    assert done[j - 1..] == [done[j - 1]] + done[j..];
  }

  /** Where the inner loop of SortInPlace stops, x goes. */
  lemma InsertStop(done: seq<Film>, x: Film, cmp: Comparator, j: nat)
    requires j <= |done| && (j == 0 || cmp(done[j - 1], x) <= 0)
    requires Insert(done, x, cmp) == Insert(done[..j], x, cmp) + done[j..]
    ensures Insert(done, x, cmp) == done[..j] + [x] + done[j..]
  {
  }

  lemma InsertionSortedPrefix(s: seq<Film>, i: nat, cmp: Comparator)
    requires i < |s|
    ensures InsertionSorted(s[..i + 1], cmp) == Insert(InsertionSorted(s[..i], cmp), s[i], cmp)
  {
    assert s[..i + 1][..i] == s[..i];
  }

  /** Swapping x with its left neighbour d[j - 1] moves x one place left. */
  lemma SwapLeft(d: seq<Film>, x: Film, tail: seq<Film>, j: nat)
    requires 0 < j <= |d|
    ensures var s := d[..j] + [x] + d[j..] + tail;
      s[j - 1 := x][j := d[j - 1]] == d[..j - 1] + [x] + d[j - 1..] + tail
  {
    var s := d[..j] + [x] + d[j..] + tail;
    var t := d[..j - 1] + [x] + d[j - 1..] + tail;
    assert |s[j - 1 := x][j := d[j - 1]]| == |t|;
    forall k | 0 <= k < |t| ensures s[j - 1 := x][j := d[j - 1]][k] == t[k] {
      if k < j - 1 {
        assert s[k] == d[k] && t[k] == d[k];
      } else if k > j {
        assert s[k] == t[k];
      }
    }
  }

  /**
   * Two sorted sequences that hold every tie class in the same order are
   * equal: sortedness fixes the order of the classes, and each class's own
   * order is given.
   */
  lemma {:induction false} SortedStableEqual(r1: seq<Film>, r2: seq<Film>, cmp: Comparator, dom: set<Film>)
    requires TotalPreorderOn(cmp, dom) && Within(r1, dom) && Within(r2, dom)
    requires Sorted(r1, cmp) && Sorted(r2, cmp) && |r1| == |r2|
    requires forall e :: e in dom ==> Select(r1, TiedWith(cmp, e)) == Select(r2, TiedWith(cmp, e))
    ensures r1 == r2
    decreases |r1|
  {
    if r1 != [] {
      var x, y := r1[0], r2[0];
      var px, py := TiedWith(cmp, x), TiedWith(cmp, y);
      assert r1[0] in dom && r2[0] in dom;
      assert px(x) && py(y);
      assert Select(r2, py) == [y] + Select(r2[1..], py);
      SelectIsStableSelection(r1, py);
      assert y in r1;
      SelectIsStableSelection(r2, px);
      assert Select(r1, px) == [x] + Select(r1[1..], px);
      assert x in r2;
      assert px(y);
      assert Select(r2, px) == [y] + Select(r2[1..], px);
      assert x == y;
      forall e | e in dom
        ensures Select(r1[1..], TiedWith(cmp, e)) == Select(r2[1..], TiedWith(cmp, e))
      {
        var p := TiedWith(cmp, e);
        var head := if p(x) then [x] else [];
        assert Select(r1, p) == head + Select(r1[1..], p);
        assert Select(r2, p) == head + Select(r2[1..], p);
        assert Select(r1, p) == Select(r2, p);
        assert Select(r1[1..], p) == Select(r1, p)[|head|..];
        assert Select(r2[1..], p) == Select(r2, p)[|head|..];
      }
      SortedStableEqual(r1[1..], r2[1..], cmp, dom);
      assert r1 == [x] + r1[1..] && r2 == [y] + r2[1..];
    }
  }

  /**
   * For a comparator that is a total preorder, the insertion sort is the only
   * stable sort: any permutation of s that is sorted and keeps every tie
   * class in input order is exactly InsertionSorted(s).
   */
  lemma StableSortUnique(s: seq<Film>, r: seq<Film>, cmp: Comparator, dom: set<Film>)
    requires TotalPreorderOn(cmp, dom) && Within(s, dom)
    requires multiset(r) == multiset(s) && Sorted(r, cmp)
    requires forall e :: e in dom ==> Select(r, TiedWith(cmp, e)) == Select(s, TiedWith(cmp, e))
    ensures r == InsertionSorted(s, cmp)
  {
    var t := InsertionSorted(s, cmp);
    InsertionSortedIsSorted(s, cmp, dom);
    InsertionSortedWithin(s, cmp, dom);
    InsertionSortedPermutes(s, cmp);
    assert |r| == |multiset(r)| == |multiset(s)| == |s|;
    forall i | 0 <= i < |r| ensures r[i] in dom {
      assert r[i] in multiset(s);
    }
    forall e | e in dom ensures Select(r, TiedWith(cmp, e)) == Select(t, TiedWith(cmp, e)) {
      InsertionSortedIsStable(s, cmp, e, dom);
    }
    SortedStableEqual(r, t, cmp, dom);
  }

  /** Moves a[i] left into the sorted prefix a[..i], as one pass of the insertion sort. */
  method InsertInPlace(a: array<Film>, i: nat, cmp: Comparator)
    requires i < a.Length
    modifies a
    ensures a[..] == Insert(old(a[..i]), old(a[i]), cmp) + old(a[i + 1..])
  {
    ghost var done, tail := a[..i], a[i + 1..];
    var x := a[i];
    var j := i;
    assert done[..j] == done && done[j..] == [];
    assert Insert(done, x, cmp) == Insert(done[..j], x, cmp) + done[j..];
    assert a[..] == done[..j] + [x] + done[j..] + tail;
    while j > 0 && cmp(a[j - 1], x) > 0
      invariant 0 <= j <= i
      invariant a[..] == done[..j] + [x] + done[j..] + tail
      invariant Insert(done, x, cmp) == Insert(done[..j], x, cmp) + done[j..]
    {
      InsertShift(done, x, cmp, j);
      SwapLeft(done, x, tail, j);
      a[j - 1], a[j] := a[j], a[j - 1];
      j := j - 1;
    }
    InsertStop(done, x, cmp, j);
  }

  /** `a.sort(cmp)`: sorts a in place with a stable insertion sort. */
  method SortInPlace(a: array<Film>, cmp: Comparator)
    modifies a
    ensures a[..] == InsertionSorted(old(a[..]), cmp)
  {
    ghost var orig := a[..];
    var i := 0;
    while i < a.Length
      invariant 0 <= i <= a.Length
      invariant a[..] == InsertionSorted(orig[..i], cmp) + orig[i..]
    {
      assert a[..i] == InsertionSorted(orig[..i], cmp) && a[i] == orig[i];
      assert a[i + 1..] == orig[i + 1..];
      InsertInPlace(a, i, cmp);
      InsertionSortedPrefix(orig, i, cmp);
      i := i + 1;
    }
    assert orig[..a.Length] == orig;
  }
}
