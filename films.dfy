/** One record of the catalog `highest-grossing-films.json`. */
module Films {
  /**
   * A film as the page reads it: `director` and `country` may name several
   * people or countries in one string; `boxOffice` is a currency string such
   * as "$1,234,567,890".
   */
  datatype Film = Film(
    title: string,
    releaseYear: int,
    director: string,
    boxOffice: string,
    country: string)
}
