/** The application's data shapes (types.ts). */
module Types {
  import opened Wrappers

  /** The four states of one product's extraction. */
  datatype Status = Pending | Processing | Completed | Failed

  /** One web page the extraction service cited. */
  datatype Source = Source(title: string, uri: string)

  /** One spreadsheet row that holds a product link, with its extraction state.
      `palette`, `title`, `error` and `sources` are `None` where the source leaves them undefined. */
  datatype Product = Product(
    id: string,
    url: string,
    palette: Option<string>,
    title: Option<string>,
    extractedImages: seq<string>,
    status: Status,
    error: Option<string>,
    sources: Option<seq<Source>>)

  /** A loaded sheet: its column names and one record per data row, keyed by column name. */
  datatype SheetData = SheetData(headers: seq<string>, rows: seq<map<string, string>>)
}
