/**
 * `filterFilms(criteria, filterText)`: the catalog films that match the
 * query under the selected criterion, in catalog order.
 */
module FilterEngine {
  import opened Films
  import opened Sequences
  import opened Strings
  import opened Decimal

  /**
   * The test `filterFilms` applies to one film: for country and director the
   * query occurs somewhere in the field, both lower-cased; for year it
   * occurs in the decimal form of the year; any other criterion and the
   * empty query let the film through.
   */
  function Matches(criteria: string, filterText: string, film: Film): (b: bool)
    ensures criteria == "country" ==> (b <==> exists i :: OccursAt(Lower(film.country), Lower(filterText), i))
    ensures criteria == "director" ==> (b <==> exists i :: OccursAt(Lower(film.director), Lower(filterText), i))
    ensures criteria == "year" ==> (b <==> exists i :: OccursAt(IntToString(film.releaseYear), filterText, i))
    ensures criteria != "country" && criteria != "director" && criteria != "year" ==> b
    ensures filterText == "" ==> b
  {
    IncludesEmpty(Lower(film.country));
    IncludesEmpty(Lower(film.director));
    IncludesEmpty(IntToString(film.releaseYear));
    assert Lower("") == "";
    if criteria == "country" then Includes(Lower(film.country), Lower(filterText))
    else if criteria == "director" then Includes(Lower(film.director), Lower(filterText))
    else if criteria == "year" then Includes(IntToString(film.releaseYear), filterText)
    else true
  }

  function Criterion(criteria: string, filterText: string): Film -> bool
  {
    (film: Film) => Matches(criteria, filterText, film)
  }

  /**
   * `data.filter(...)`: a subsequence of the catalog holding exactly the
   * films that match, each as often as in the catalog and in catalog order.
   */
  function FilterFilms(data: seq<Film>, criteria: string, filterText: string): (r: seq<Film>)
    ensures IsSubsequence(r, data)
    ensures forall i :: 0 <= i < |r| ==> Matches(criteria, filterText, r[i])
    ensures |r| == Count(data, Criterion(criteria, filterText))
    ensures forall f :: f in r <==> f in data && Matches(criteria, filterText, f)
  {
    SelectIsStableSelection(data, Criterion(criteria, filterText));
    Select(data, Criterion(criteria, filterText))
  }

  /** An unrecognised criterion lets every film through. */
  lemma UnknownCriterionKeepsAll(data: seq<Film>, criteria: string, filterText: string)
    requires criteria != "country" && criteria != "director" && criteria != "year"
    ensures FilterFilms(data, criteria, filterText) == data
  {
    SelectAll(data, Criterion(criteria, filterText));
  }

  /** An empty query lets every film through, whatever the criterion. */
  lemma EmptyQueryKeepsAll(data: seq<Film>, criteria: string)
    ensures FilterFilms(data, criteria, "") == data
  {
    forall f | f in data ensures Criterion(criteria, "")(f) {
      IncludesEmpty(Lower(f.country));
      IncludesEmpty(Lower(f.director));
      IncludesEmpty(IntToString(f.releaseYear));
      assert Lower("") == "";
    }
    SelectAll(data, Criterion(criteria, ""));
  }

  /** Country and director queries ignore letter case: queries equal up to case select the same films. */
  lemma QueryCaseIgnored(data: seq<Film>, criteria: string, q1: string, q2: string)
    requires criteria == "country" || criteria == "director"
    requires Lower(q1) == Lower(q2)
    ensures FilterFilms(data, criteria, q1) == FilterFilms(data, criteria, q2)
  {
    SelectAgree(data, Criterion(criteria, q1), Criterion(criteria, q2));
  }

  /** Country and director fields are compared case-blind too: a film whose field differs only in case matches alike. */
  lemma FieldCaseIgnored(criteria: string, q: string, f: Film, g: Film)
    requires criteria == "country" || criteria == "director"
    requires criteria == "country" ==> Lower(f.country) == Lower(g.country)
    requires criteria == "director" ==> Lower(f.director) == Lower(g.director)
    ensures Matches(criteria, q, f) == Matches(criteria, q, g)
  {
  }

  /** The query "usa", in any letter case, keeps a film made in "United States, USA". */
  lemma CountryExample(f: Film)
    requires f.country == "United States, USA"
    ensures Matches("country", "usa", f) && Matches("country", "USA", f) && Matches("country", "Usa", f)
  {
    var folded := Lower(f.country);
    assert folded[15..18] == "usa";
    assert OccursAt(folded, "usa", 15);
    assert Lower("USA") == "usa" && Lower("Usa") == "usa" && Lower("usa") == "usa";
  }

  /** The year query "19" keeps 1997 and 2019 but not 2023: it matches anywhere in the year, not only at the start. */
  lemma YearExample(a: Film, b: Film, c: Film)
    requires a.releaseYear == 1997 && b.releaseYear == 2019 && c.releaseYear == 2023
    ensures FilterFilms([a, b, c], "year", "19") == [a, b]
  {
    YearDigitsExample();
    var p := Criterion("year", "19");
    assert p(a) && p(b) && !p(c);
    assert [a, b, c][1..] == [b, c] && [b, c][1..] == [c] && [c][1..] == [];
    assert Select([c], p) == [];
    assert Select([b, c], p) == [b];
  }

  lemma YearDigitsExample()
    ensures Includes(IntToString(1997), "19")
    ensures Includes(IntToString(2019), "19")
    ensures !Includes(IntToString(2023), "19")
  {
    YearStringsExample();
    assert OccursAt("1997", "19", 0);
    assert OccursAt("2019", "19", 2);
    assert !Includes("2023", "19");
  }

  lemma YearStringsExample()
    ensures IntToString(1997) == "1997" && IntToString(2019) == "2019" && IntToString(2023) == "2023"
  {
    assert NatToString(199) == "199";
    assert NatToString(201) == "201";
    assert NatToString(202) == "202";
  }
}
