# Highest-grossing films page: sort and filter core

The page loads a catalog of films (title, release year, director(s), box-office
amount as a "$2,847,000,000"-style string, country or countries) and shows it
as cards. Four controls change what is shown:

- a sort-field selector ("title", "year", "box_office") and a direction selector
  ("asc", "desc") re-render the whole catalog, sorted;
- a criterion selector ("country", "director", "year") and a text box re-render
  the catalog films that match the typed text.

Each control recomputes its result from the full catalog, so sorting and
filtering never compose: the most recent action decides what is shown.

This project models that core in Dafny:

- `Films` — the film record.
- `Sorting` — a stable insertion sort over an arbitrary integer comparator.
  It is given as a specification (`Insert`, `InsertionSorted`), with proofs that
  it permutes, and, for a comparator that is a total preorder on the films
  sorted, that it sorts and is stable. `InsertInPlace` and `SortInPlace` implement it on an
  array and are proved equal to the specification.
- `Sequences` — `Select` (the library `filter`), `Reverse`, the in-place
  `ReverseInPlace` (the library `reverse`) and their laws.
- `SortEngine` — `sortFilms`. The catalog is copied into a fresh array, sorted
  in place with the title, year or box-office comparator, then reversed in
  place for "desc".
- `BoxOffice` and `Decimal` — the box-office sort key: drop the first "$",
  drop every ",", read the rest as a decimal number.
- `Strings` — ASCII lower-casing and substring search (`includes`).
- `FilterEngine` — `filterFilms`: a stable selection of the catalog by the
  selected criterion.
- `ControlSurface` — the page state (`FilmPage`) and its event handlers.

Comparators follow the library's sort contract. A negative result puts the
first film first. A NaN result, which the box-office comparator returns when an
amount does not parse, counts as 0 (equal).

## Model

| member | source | states |
|---|---|---|
| SortEngine.SortFilms | script.js:61-88 | the films rendered are the catalog sorted ascending by the chosen field (unsorted for any other selector) and reversed for "desc"; they are a permutation of the catalog |
| SortEngine.SortedView | script.js:61-85 | for every selector and direction, the rendered sequence only rearranges the catalog: same films, same multiplicities |
| SortEngine.Ascending | script.js:64-80 | the sorted copy before any reversal is a rearrangement of the catalog, and the catalog itself, in order, for a selector other than title/year/box_office |
| SortEngine.YearCompare | script.js:69 | the year comparison is negative, zero or positive exactly when the first film's release year is smaller than, equal to or greater than the second's |
| SortEngine.BoxOfficeCompare | script.js:72-76 | when both amounts parse, the comparison is negative or zero exactly when the first amount is smaller or equal; when either does not parse (NaN in the source) it is 0, so the two films count as equal |
| SortEngine.TitleCompare | script.js:66 | two films compare as the host collation of their titles, and films with the same titles compare alike whatever their other fields |
| SortEngine.DescendingReversesAscending | script.js:82-85 | for every selector, the "desc" result is the ascending result read backwards, and the other way round |
| SortEngine.UnknownSelectorKeepsOrder | script.js:64-85 | a selector other than title/year/box_office leaves catalog order, or reverses it exactly for "desc" |
| SortEngine.YearSortOrdered | script.js:68-70 | sorting by year gives non-decreasing release years ascending and non-increasing for "desc" |
| SortEngine.YearSortStable | script.js:62-70 | films of the same year keep their catalog order ascending, and appear in exactly reversed catalog order for "desc" |
| SortEngine.BoxOfficeSortOrdered | script.js:71-76 | when every amount parses, sorting by box office orders the numeric amounts (not the strings) non-decreasing ascending, non-increasing for "desc" |
| SortEngine.TitleSortOrdered | script.js:65-67 | when the collation is a total preorder on the catalog's titles, sorting by title orders the titles by it, in either direction |
| SortEngine.YearSortExample | script.js:68-70 | years [2009, 1997, 2019, 1997] sort to [1997, 1997, 2009, 2019] with the two 1997 films in catalog order; "desc" gives exactly the reverse |
| SortEngine.BoxOfficeSortExample | script.js:71-76 | amounts 2847000000, 1000000 and 956019788 sort numerically to 1000000, 956019788, 2847000000 |
| Sorting.SortInPlace | script.js:66-76 | the array sort leaves the array equal to the stable insertion sort of its old contents |
| Sorting.InsertInPlace | script.js:66-76 | one pass moves element i left past the trailing run of earlier elements that compare greater than it, shifting that run right; the part after i is untouched |
| Sorting.InsertionSortedPermutes | script.js:66-76 | the sort returns a permutation of its input |
| Sorting.InsertionSortedIsSorted | script.js:66-76 | for a comparator that is a total preorder on the films sorted, no film in the result compares greater than a later one |
| Sorting.InsertionSortedIsStable | script.js:66-76 | for a comparator that is a total preorder on the films sorted, films the comparator ties keep their relative input order |
| Sorting.StableSortUnique | script.js:66-76 | for a comparator that is a total preorder, every permutation of the input that is sorted and keeps each tie class in input order is exactly the insertion sort's result, so any stable sort algorithm gives the same order |
| Sequences.ReverseInPlace | script.js:83-85 | the array reversal leaves the array equal to its old contents read backwards |
| Sequences.Reverse | script.js:83-85 | the reversal has the same length, and position i holds the element at position length-1-i |
| Sequences.ReverseInvolution | script.js:83-85 | reversing twice gives back the original order |
| Sequences.SelectReverse | script.js:83-85 | selecting from the reversed sequence gives the reversed selection |
| Sequences.Select | script.js:92-103 | `filter` never returns more elements than it is given, and every element it returns passes the test |
| Sequences.SelectIsStableSelection | script.js:92-103 | `filter` returns a subsequence of its input holding exactly the elements that satisfy the test, each as often as in the input |
| BoxOffice.FormattedKey | script.js:73-74 | for every amount n, the key of "$" followed by n with thousands commas is exactly n |
| BoxOffice.KeyExample | script.js:73-74 | "$2,847,000,000", "$1,000,000" and "$956,019,788" have keys 2847000000, 1000000 and 956019788 |
| BoxOffice.MalformedKeyExample | script.js:73-75 | "", "$" and "$," have no numeric key |
| BoxOffice.KeyReading | script.js:73-74 | the key of a string that starts with "$" is the reading of the rest with every "," dropped, and a string with no "$" and no "," is read as it stands |
| BoxOffice.RemoveFirst | script.js:73 | a string without the character is unchanged; otherwise the result is one shorter, and everything before the first occurrence is kept and holds no occurrence |
| BoxOffice.RemoveFirstReinsert | script.js:73 | putting the character back where its first occurrence was gives the original string: nothing else is removed or moved |
| BoxOffice.RemoveAll | script.js:73 | no occurrence of the character is left, a string without it is unchanged, and the result is exactly the other characters of the string, in order |
| Decimal.ParsePrintInverse | script.js:73-74 | on canonical digit strings (non-empty, digits only, no leading zero unless a single digit) parsing and printing are inverse: s reads as n exactly when n prints as s |
| Decimal.NatToString | script.js:99 | a year's decimal form is non-empty, all digits, has no leading zero and reads back as the year |
| Decimal.IntToString | script.js:99 | a year's decimal form is never empty; a non-negative year prints as canonical digits (no leading zero unless it is 0) that read back as itself, and a negative one as "-" followed by the canonical digits of its magnitude; with Decimal.ParsePrintInverse this fixes the string |
| Decimal.NatToStringRoundTrip | script.js:99 | parsing the decimal form of n gives back n |
| Strings.Includes | script.js:95-99 | t is included in s exactly when t occurs at some position of s |
| Strings.IncludesEmpty | script.js:95-99 | the empty query is included in every string |
| Strings.LowerChar | script.js:95-97 | lower-casing maps A–Z to a–z and leaves every other character alone; the result is never an upper-case letter |
| Strings.Lower | script.js:95-97 | lower-casing keeps the length, leaves no upper-case letter, shifts each upper-case letter to its lower-case form and keeps every other character in place |
| Strings.LowerIdempotent | script.js:95-97 | lower-casing twice is the same as once |
| FilterEngine.Matches | script.js:93-102 | country and director match exactly when the lower-cased query occurs in the lower-cased field, year exactly when the query occurs in the year's decimal form; any other criterion and the empty query match every film |
| FilterEngine.FilterFilms | script.js:91-105 | the films rendered form a subsequence of the catalog; it holds exactly the films that match under the criterion, each as often as in the catalog, in catalog order |
| FilterEngine.UnknownCriterionKeepsAll | script.js:100-101 | an unrecognised criterion keeps the whole catalog, in order |
| FilterEngine.EmptyQueryKeepsAll | script.js:94-101 | an empty query keeps the whole catalog under every criterion |
| FilterEngine.QueryCaseIgnored | script.js:94-97 | for country and director, queries that differ only in letter case select the same films |
| FilterEngine.FieldCaseIgnored | script.js:94-97 | for country and director, two films whose selected field differs only in letter case match alike |
| FilterEngine.CountryExample | script.js:94-95 | "usa", "USA" and "Usa" all keep a film made in "United States, USA" |
| FilterEngine.YearExample | script.js:98-99 | the year query "19" keeps 1997 and 2019 and drops 2023: it matches anywhere in the year |
| ControlSurface.FilmPage.constructor | script.js:8 | before loading, the catalog and the rendered list are empty |
| ControlSurface.FilmPage.Loaded | script.js:18-21 | a successful load makes the films the catalog and renders them in catalog order; the controls do not change |
| ControlSurface.FilmPage.SortSelectChanged | script.js:108-112 | a new sort field renders the catalog sorted by it in the current direction; the catalog and the other controls do not change |
| ControlSurface.FilmPage.SortDirectionChanged | script.js:114-118 | a new direction renders the catalog sorted by the current field in that direction; the catalog and the other controls do not change |
| ControlSurface.FilmPage.CriteriaChanged | script.js:120-123 | a new criterion clears the filter box and renders the whole catalog, which is what filtering by the cleared box gives |
| ControlSurface.FilmPage.FilterInput | script.js:125-129 | typed text renders the catalog filtered by the current criterion and that text; the catalog and the other controls do not change |

Ascending by year, films of years [2009, 1997, 2019, 1997] come out as
[1997, 1997, 2009, 2019], the two 1997 films in catalog order (script.js:69);
`SortEngine.YearSortExample` proves it.

## Left out

- Rendering (script.js:27-58): building the cards, clearing the container and the
  scroll-triggered `IntersectionObserver` animation. The model keeps only the list
  of films rendered (`FilmPage.shown`).
- Fetching the catalog (script.js:11-17, 22-24): the network request, the
  response check and the error log. `FilmPage.Loaded` models the success path. On
  failure the page stays as constructed, with an empty catalog.
- `localeCompare` (script.js:66): collation depends on the host's locale data. It is a parameter
  `(string, string) -> int`. Title ordering is proved only under the hypothesis
  that it is a total preorder on the catalog's titles.
- The sort algorithm: the library leaves it to the engine, which only has to be
  stable. The model uses a stable insertion sort. For a comparator that is a total
  preorder, `Sorting.StableSortUnique` shows that every stable sort gives the same
  order. With a comparator that is not a preorder, such as the box-office one
  when some amount does not parse, engines may order differently from the model.
- `parseFloat` (script.js:73-74): the key is an exact decimal reading. It is
  defined only when what remains after removing "$" and "," is a non-empty run
  of digits. Otherwise the key is missing, which stands for NaN. Leading
  whitespace, a sign, fractions, exponents and partial readings such as "12abc"
  are not modelled.
- SortEngine.BoxOfficeSortOrdered: ordering is claimed only when every amount
  parses. When some do not, the NaN comparisons make the order engine-dependent.
- SortEngine.BoxOfficeSortExample: it takes the three keys as hypotheses rather than
  the literal amount strings. `BoxOffice.KeyExample` proves that the literal
  strings have those keys.
- Lower-casing (script.js:95, 97): only ASCII A–Z are folded. Other
  scripts' case mappings and length-changing mappings are not modelled.
- Missing or mistyped fields in the fetched JSON: a film always has all five
  fields, with an integer release year. The exceptions JavaScript would raise
  when calling `toLowerCase` on a missing field are not modelled, nor are
  non-integer years.
- Number-to-string conversion (script.js:99): integer years only. The
  exponent notation that JavaScript uses for magnitudes of 1e21 and above is not
  modelled.
