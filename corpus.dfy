/** The rows of the news table, as far as the retrieval core and the
    sentiment heuristic read them. */
module Corpus {

  /** A `description` cell of the CSV table: some text, or a missing value
      (pandas reads an empty cell as NaN). */
  datatype Description = Text(text: string) | Missing

  /** One article. The title is carried along for display only; the
      publication date is not part of this model. */
  datatype Article = Article(title: string, description: Description)

  /** `str(cell)`: a missing value is printed as "nan". */
  function Str(d: Description): string
  {
    match d
    case Text(s) => s
    case Missing => "nan"
  }

  /** `fillna("")`: a missing value becomes the empty text. */
  function FillNa(d: Description): string
  {
    match d
    case Text(s) => s
    case Missing => ""
  }
}
