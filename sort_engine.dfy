/**
 * `sortFilms(sortBy, sortDirection)`: copy the catalog, sort the copy by the
 * selected field, reverse it for "desc", and show the result.
 */
module SortEngine {
  import opened Wrappers
  import opened Films
  import opened Sequences
  import opened BoxOffice
  import opened Sorting

  /** Ascending by release year: `a.release_year - b.release_year`. */
  function YearCompare(a: Film, b: Film): (r: int)
    ensures r < 0 <==> a.releaseYear < b.releaseYear
    ensures r == 0 <==> a.releaseYear == b.releaseYear
    ensures r > 0 <==> a.releaseYear > b.releaseYear
  {
    a.releaseYear - b.releaseYear
  }

  /**
   * Ascending by box-office amount. When either key is malformed the
   * difference is NaN, and the sort treats a NaN comparison as 0 (equal).
   */
  function BoxOfficeCompare(a: Film, b: Film): (r: int)
    ensures BoxOfficeKey(a.boxOffice).None? || BoxOfficeKey(b.boxOffice).None? ==> r == 0
    ensures BoxOfficeKey(a.boxOffice).Some? && BoxOfficeKey(b.boxOffice).Some? ==>
      (r < 0 <==> BoxOfficeKey(a.boxOffice).value < BoxOfficeKey(b.boxOffice).value) &&
      (r == 0 <==> BoxOfficeKey(a.boxOffice).value == BoxOfficeKey(b.boxOffice).value)
  {
    match (BoxOfficeKey(a.boxOffice), BoxOfficeKey(b.boxOffice))
    case (Some(x), Some(y)) => x as int - y as int
    case _ => 0
  }

  /**
   * By title, with `localeCompare` supplied by the host: two films compare as
   * their titles collate, and films with the same titles compare alike
   * whatever their other fields.
   */
  function TitleCompare(localeCompare: (string, string) -> int): (cmp: Comparator)
    ensures forall a: Film, b: Film :: cmp(a, b) == localeCompare(a.title, b.title)
    ensures forall a: Film, b: Film, a': Film, b': Film :: a.title == a'.title && b.title == b'.title ==> cmp(a, b) == cmp(a', b')
  {
    (a: Film, b: Film) => localeCompare(a.title, b.title)
  }

  /** The films of s, as a set. */
  ghost function Elements(s: seq<Film>): set<Film>
  {
    set f | f in s
  }

  /**
   * The sequence `sortFilms` sorts before any reversal: a rearrangement of the
   * catalog, and the catalog itself for an unrecognised selector.
   */
  function Ascending(data: seq<Film>, sortBy: string, localeCompare: (string, string) -> int): (r: seq<Film>)
    ensures multiset(r) == multiset(data)
    ensures sortBy != "title" && sortBy != "year" && sortBy != "box_office" ==> r == data
  {
    if sortBy == "title" then
      InsertionSortedPermutes(data, TitleCompare(localeCompare));
      InsertionSorted(data, TitleCompare(localeCompare))
    else if sortBy == "year" then
      InsertionSortedPermutes(data, YearCompare);
      InsertionSorted(data, YearCompare)
    else if sortBy == "box_office" then
      InsertionSortedPermutes(data, BoxOfficeCompare);
      InsertionSorted(data, BoxOfficeCompare)
    else data
  }

  /**
   * The sequence `sortFilms` renders: for every selector and direction a
   * rearrangement of the catalog, the same films as often as in the catalog.
   */
  function SortedView(data: seq<Film>, sortBy: string, sortDirection: string,
                      localeCompare: (string, string) -> int): (r: seq<Film>)
    ensures multiset(r) == multiset(data)
  {
    var ascending := Ascending(data, sortBy, localeCompare);
    if sortDirection == "desc" then
      ReversePermutes(ascending);
      Reverse(ascending)
    else ascending
  }

  /**
   * `sortFilms`: works on a fresh array copy of the catalog, so the catalog
   * itself (an immutable sequence here) cannot change.
   */
  method SortFilms(data: seq<Film>, sortBy: string, sortDirection: string,
                   localeCompare: (string, string) -> int) returns (sorted: seq<Film>)
    ensures sorted == SortedView(data, sortBy, sortDirection, localeCompare)
    ensures multiset(sorted) == multiset(data)
  {
    var copy := new Film[|data|](i requires 0 <= i < |data| => data[i]);
    assert copy[..] == data;
    if sortBy == "title" {
      SortInPlace(copy, TitleCompare(localeCompare));
    } else if sortBy == "year" {
      SortInPlace(copy, YearCompare);
    } else if sortBy == "box_office" {
      SortInPlace(copy, BoxOfficeCompare);
    }
    if sortDirection == "desc" {
      ReverseInPlace(copy);
    }
    sorted := copy[..];
  }

  /**
   * For every selector, "desc" is the ascending result read backwards, and
   * reading the "desc" result backwards gives the ascending one.
   */
  lemma DescendingReversesAscending(data: seq<Film>, sortBy: string, sortDirection: string,
                                    localeCompare: (string, string) -> int)
    requires sortDirection != "desc"
    ensures SortedView(data, sortBy, "desc", localeCompare) == Reverse(SortedView(data, sortBy, sortDirection, localeCompare))
    ensures Reverse(SortedView(data, sortBy, "desc", localeCompare)) == SortedView(data, sortBy, sortDirection, localeCompare)
  {
    ReverseInvolution(Ascending(data, sortBy, localeCompare));
  }

  /** An unrecognised selector does not reorder: the catalog, or the catalog reversed for "desc". */
  lemma UnknownSelectorKeepsOrder(data: seq<Film>, sortBy: string, sortDirection: string,
                                  localeCompare: (string, string) -> int)
    requires sortBy != "title" && sortBy != "year" && sortBy != "box_office"
    ensures SortedView(data, sortBy, sortDirection, localeCompare) ==
            if sortDirection == "desc" then Reverse(data) else data
  {
  }

  lemma YearComparePreorder(dom: set<Film>)
    ensures TotalPreorderOn(YearCompare, dom)
  {
  }

  /** Sorting by year orders release years: non-decreasing ascending, non-increasing for "desc". */
  lemma YearSortOrdered(data: seq<Film>, sortDirection: string, localeCompare: (string, string) -> int)
    ensures var r := SortedView(data, "year", sortDirection, localeCompare);
      forall i, j :: 0 <= i < j < |r| ==>
        if sortDirection == "desc" then r[i].releaseYear >= r[j].releaseYear
        else r[i].releaseYear <= r[j].releaseYear
  {
    YearComparePreorder(Elements(data));
    InsertionSortedIsSorted(data, YearCompare, Elements(data));
  }

  /** A film standing for release year y in the stability argument. */
  function YearProbe(y: int): Film
  {
    Film("", y, "", "", "")
  }

  function InYear(y: int): Film -> bool
  {
    (f: Film) => f.releaseYear == y
  }

  /**
   * The year sort is stable: the films of any one year keep their catalog
   * order in the ascending result, and appear in reverse catalog order for "desc".
   */
  lemma YearSortStable(data: seq<Film>, y: int, sortDirection: string, localeCompare: (string, string) -> int)
    ensures var r := SortedView(data, "year", sortDirection, localeCompare);
      if sortDirection == "desc" then Reverse(Select(r, InYear(y))) == Select(data, InYear(y))
      else Select(r, InYear(y)) == Select(data, InYear(y))
  {
    var e := YearProbe(y);
    var dom := Elements(data) + {e};
    var sorted := InsertionSorted(data, YearCompare);
    YearComparePreorder(dom);
    InsertionSortedIsStable(data, YearCompare, e, dom);
    InsertionSortedPermutes(data, YearCompare);
    forall f | f in sorted ensures TiedWith(YearCompare, e)(f) == InYear(y)(f) {
    }
    SelectAgree(sorted, TiedWith(YearCompare, e), InYear(y));
    SelectAgree(data, TiedWith(YearCompare, e), InYear(y));
    if sortDirection == "desc" {
      SelectReverse(sorted, InYear(y));
      ReverseInvolution(Select(sorted, InYear(y)));
    }
  }

  lemma BoxOfficeComparePreorder(dom: set<Film>)
    requires forall f :: f in dom ==> BoxOfficeKey(f.boxOffice).Some?
    ensures TotalPreorderOn(BoxOfficeCompare, dom)
  {
  }

  /** The amount of a film, when its box-office string is well-formed. */
  function Amount(f: Film): nat
    requires BoxOfficeKey(f.boxOffice).Some?
  {
    BoxOfficeKey(f.boxOffice).value
  }

  lemma CompareAmounts(a: Film, b: Film)
    requires BoxOfficeKey(a.boxOffice).Some? && BoxOfficeKey(b.boxOffice).Some?
    ensures BoxOfficeCompare(a, b) == Amount(a) as int - Amount(b) as int
  {
  }

  ghost predicate WellFormedAmounts(s: seq<Film>)
  {
    forall i :: 0 <= i < |s| ==> BoxOfficeKey(s[i].boxOffice).Some?
  }

  lemma BoxOfficeSortedAscending(data: seq<Film>)
    requires WellFormedAmounts(data)
    ensures var r := InsertionSorted(data, BoxOfficeCompare);
      WellFormedAmounts(r) && forall i, j :: 0 <= i < j < |r| ==> Amount(r[i]) <= Amount(r[j])
  {
    var dom := Elements(data);
    var r := InsertionSorted(data, BoxOfficeCompare);
    BoxOfficeComparePreorder(dom);
    InsertionSortedIsSorted(data, BoxOfficeCompare, dom);
    InsertionSortedWithin(data, BoxOfficeCompare, dom);
    forall i, j | 0 <= i < j < |r| ensures Amount(r[i]) <= Amount(r[j]) {
      assert BoxOfficeCompare(r[i], r[j]) <= 0;
      CompareAmounts(r[i], r[j]);
    }
  }

  lemma BoxOfficeSortedDescending(data: seq<Film>)
    requires WellFormedAmounts(data)
    ensures var r := Reverse(InsertionSorted(data, BoxOfficeCompare));
      WellFormedAmounts(r) && forall i, j :: 0 <= i < j < |r| ==> Amount(r[i]) >= Amount(r[j])
  {
    var dom := Elements(data);
    var a := InsertionSorted(data, BoxOfficeCompare);
    var r := Reverse(a);
    BoxOfficeComparePreorder(dom);
    InsertionSortedIsSorted(data, BoxOfficeCompare, dom);
    InsertionSortedWithin(data, BoxOfficeCompare, dom);
    ReverseSorted(a, BoxOfficeCompare);
    forall i | 0 <= i < |r| ensures BoxOfficeKey(r[i].boxOffice).Some? {
      assert r[i] in dom;
    }
    forall i, j | 0 <= i < j < |r| ensures Amount(r[i]) >= Amount(r[j]) {
      assert BoxOfficeCompare(r[j], r[i]) <= 0;
      CompareAmounts(r[j], r[i]);
    }
  }

  /**
   * When every amount is well-formed, sorting by box office orders the
   * amounts: non-decreasing ascending, non-increasing for "desc".
   */
  lemma BoxOfficeSortOrdered(data: seq<Film>, sortDirection: string, localeCompare: (string, string) -> int)
    requires WellFormedAmounts(data)
    ensures var r := SortedView(data, "box_office", sortDirection, localeCompare);
      WellFormedAmounts(r) &&
      forall i, j :: 0 <= i < j < |r| ==>
        if sortDirection == "desc" then Amount(r[i]) >= Amount(r[j]) else Amount(r[i]) <= Amount(r[j])
  {
    var a := InsertionSorted(data, BoxOfficeCompare);
    assert Ascending(data, "box_office", localeCompare) == a;
    if sortDirection == "desc" {
      BoxOfficeSortedDescending(data);
      assert SortedView(data, "box_office", sortDirection, localeCompare) == Reverse(a);
    } else {
      BoxOfficeSortedAscending(data);
      assert SortedView(data, "box_office", sortDirection, localeCompare) == a;
    }
  }

  /** When `localeCompare` is a total preorder on the catalog's titles, sorting by title orders them. */
  lemma TitleSortOrdered(data: seq<Film>, sortDirection: string, localeCompare: (string, string) -> int)
    requires TotalPreorderOn(TitleCompare(localeCompare), Elements(data))
    ensures var r := SortedView(data, "title", sortDirection, localeCompare);
      forall i, j :: 0 <= i < j < |r| ==>
        if sortDirection == "desc" then localeCompare(r[j].title, r[i].title) <= 0
        else localeCompare(r[i].title, r[j].title) <= 0
  {
    InsertionSortedIsSorted(data, TitleCompare(localeCompare), Elements(data));
  }

  /**
   * Films of years [2009, 1997, 2019, 1997] sort to years [1997, 1997, 2009,
   * 2019], the two 1997 films in catalog order; "desc" gives the exact reverse.
   */
  lemma YearSortExample(a: Film, b: Film, c: Film, d: Film, localeCompare: (string, string) -> int)
    requires a.releaseYear == 2009 && b.releaseYear == 1997 && c.releaseYear == 2019 && d.releaseYear == 1997
    ensures SortedView([a, b, c, d], "year", "asc", localeCompare) == [b, d, a, c]
    ensures SortedView([a, b, c, d], "year", "desc", localeCompare) == [c, a, d, b]
  {
    var catalog, r := [a, b, c, d], [b, d, a, c];
    assert Ascending(catalog, "year", localeCompare) == r by {
      SortSecondFourthFirstThird(a, b, c, d, YearCompare);
    }
    assert SortedView(catalog, "year", "desc", localeCompare) == [c, a, d, b] by {
      assert Reverse(r) == [c, a, d, b];
    }
  }

  /** Four films where the second and fourth go first, in that order, then the first and third. */
  lemma SortSecondFourthFirstThird(a: Film, b: Film, c: Film, d: Film, cmp: Comparator)
    requires cmp(a, b) > 0 && cmp(a, c) <= 0 && cmp(c, d) > 0 && cmp(a, d) > 0 && cmp(b, d) <= 0
    ensures InsertionSorted([a, b, c, d], cmp) == [b, d, a, c]
  {
    var catalog := [a, b, c, d];
    assert catalog[..3][..2][..1] == [a] && catalog[..3][..2] == [a, b] && catalog[..3] == [a, b, c];
    assert [a][..0] == [];
    assert InsertionSorted([a], cmp) == [a];
    assert Insert([a], b, cmp) == Insert([], b, cmp) + [a];
    assert InsertionSorted([a, b], cmp) == [b, a];
    assert InsertionSorted([a, b, c], cmp) == [b, a, c];
    assert [b, a, c][..2] == [b, a] && [b, a][..1] == [b];
    assert Insert([b, a], d, cmp) == [b, d, a];
    assert Insert([b, a, c], d, cmp) == [b, d, a, c];
  }

  /**
   * Films whose amounts read as 2847000000, 1000000 and 956019788 (the keys of
   * "$2,847,000,000", "$1,000,000" and "$956,019,788", see
   * BoxOffice.KeyExample) sort numerically, not as text.
   */
  lemma BoxOfficeSortExample(a: Film, b: Film, c: Film, localeCompare: (string, string) -> int)
    requires BoxOfficeKey(a.boxOffice) == Some(2847000000)
    requires BoxOfficeKey(b.boxOffice) == Some(1000000)
    requires BoxOfficeKey(c.boxOffice) == Some(956019788)
    ensures SortedView([a, b, c], "box_office", "asc", localeCompare) == [b, c, a]
  {
    ExampleComparisons(a, b, c);
    SortLastFirst(a, b, c, BoxOfficeCompare);
    assert Ascending([a, b, c], "box_office", localeCompare) == [b, c, a];
  }

  lemma ExampleComparisons(a: Film, b: Film, c: Film)
    requires BoxOfficeKey(a.boxOffice) == Some(2847000000)
    requires BoxOfficeKey(b.boxOffice) == Some(1000000)
    requires BoxOfficeKey(c.boxOffice) == Some(956019788)
    ensures BoxOfficeCompare(a, b) > 0 && BoxOfficeCompare(a, c) > 0 && BoxOfficeCompare(b, c) <= 0
  {
  }

  /** Three films where the first goes last and the other two keep their order. */
  lemma SortLastFirst(a: Film, b: Film, c: Film, cmp: Comparator)
    requires cmp(a, b) > 0 && cmp(a, c) > 0 && cmp(b, c) <= 0
    ensures InsertionSorted([a, b, c], cmp) == [b, c, a]
  {
    var catalog := [a, b, c];
    assert catalog[..2][..1] == [a] && catalog[..2] == [a, b] && [a][..0] == [];
    assert InsertionSorted([a], cmp) == [a];
    assert Insert([a], b, cmp) == Insert([], b, cmp) + [a];
    assert InsertionSorted([a, b], cmp) == [b, a];
    assert [b, a][..1] == [b];
    assert Insert([b], c, cmp) == [b, c];
    assert Insert([b, a], c, cmp) == [b, c, a];
  }
}
