/**
 * The page's event handlers: each control change recomputes the rendered
 * films from the full catalog, so the last action wins and sort and filter
 * never compose.
 */
module ControlSurface {
  import opened Films
  import opened SortEngine
  import opened FilterEngine

  /**
   * The catalog `data`, the current values of the four controls, and the
   * films the page currently renders (`shown`, in place of the DOM cards).
   */
  class FilmPage {
    var data: seq<Film>
    var sortBy: string
    var sortDirection: string
    var criteria: string
    var filterText: string
    var shown: seq<Film>
    const localeCompare: (string, string) -> int

    /** The page before the catalog arrives: nothing loaded, nothing rendered, an empty filter box. */
    constructor (sortBy: string, sortDirection: string, criteria: string, localeCompare: (string, string) -> int)
      ensures data == [] && shown == [] && filterText == ""
      ensures this.sortBy == sortBy && this.sortDirection == sortDirection && this.criteria == criteria
      ensures this.localeCompare == localeCompare
    {
      data := [];
      shown := [];
      filterText := "";
      this.sortBy := sortBy;
      this.sortDirection := sortDirection;
      this.criteria := criteria;
      this.localeCompare := localeCompare;
    }

    /** The fetch succeeded with `films`: they become the catalog and are rendered as loaded. */
    method Loaded(films: seq<Film>)
      modifies this
      ensures data == films && shown == films
      ensures sortBy == old(sortBy) && sortDirection == old(sortDirection)
      ensures criteria == old(criteria) && filterText == old(filterText)
    {
      data := films;
      shown := data;
    }

    /** The sort-field selector changed: render the catalog sorted by the new field and the current direction. */
    method SortSelectChanged(value: string)
      modifies this
      ensures sortBy == value && data == old(data)
      ensures shown == SortedView(data, sortBy, sortDirection, localeCompare)
      ensures multiset(shown) == multiset(data)
      ensures sortDirection == old(sortDirection) && criteria == old(criteria) && filterText == old(filterText)
    {
      sortBy := value;
      shown := SortFilms(data, sortBy, sortDirection, localeCompare);
    }

    /** The direction selector changed: render the catalog sorted by the current field and the new direction. */
    method SortDirectionChanged(value: string)
      modifies this
      ensures sortDirection == value && data == old(data)
      ensures shown == SortedView(data, sortBy, sortDirection, localeCompare)
      ensures multiset(shown) == multiset(data)
      ensures sortBy == old(sortBy) && criteria == old(criteria) && filterText == old(filterText)
    {
      sortDirection := value;
      shown := SortFilms(data, sortBy, sortDirection, localeCompare);
    }

    /**
     * The criterion selector changed: the filter box is cleared and the whole
     * catalog is rendered, which is what filtering by the cleared box gives.
     */
    method CriteriaChanged(value: string)
      modifies this
      ensures criteria == value && filterText == "" && data == old(data)
      ensures shown == data
      ensures shown == FilterFilms(data, criteria, filterText)
      ensures sortBy == old(sortBy) && sortDirection == old(sortDirection)
    {
      criteria := value;
      filterText := "";
      shown := data;
      EmptyQueryKeepsAll(data, criteria);
    }

    /** Text typed into the filter box: render the catalog films that match it under the current criterion. */
    method FilterInput(text: string)
      modifies this
      ensures filterText == text && data == old(data)
      ensures shown == FilterFilms(data, criteria, filterText)
      ensures sortBy == old(sortBy) && sortDirection == old(sortDirection) && criteria == old(criteria)
    {
      filterText := text;
      shown := FilterFilms(data, criteria, filterText);
    }
  }
}
