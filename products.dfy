/** The `Product` record, the export header `TITLE_ROW`, and the row order of `astuple`. */
module Products {
  import opened Outcomes

  /**
   * One scraped product. `price` holds the price text after the `$` signs are
   * removed: the `float` conversion of that text is not part of this model.
   */
  datatype Product = Product(
    title: string,
    description: string,
    price: string,
    rating: int,
    numOfReviews: int
  )

  /** One cell of an exported row. */
  datatype Cell = Text(text: string) | Number(n: int)

  /** The dataclass field names of `Product`, in declaration order: the export header. */
  const TitleRow: seq<string> := ["title", "description", "price", "rating", "num_of_reviews"]

  /** `getattr(p, name)` for the dataclass fields; `None` where Python raises `AttributeError`. */
  function FieldByName(p: Product, name: string): Option<Cell> {
    match name
    case "title" => Some(Text(p.title))
    case "description" => Some(Text(p.description))
    case "price" => Some(Text(p.price))
    case "rating" => Some(Number(p.rating))
    case "num_of_reviews" => Some(Number(p.numOfReviews))
    case _ => None
  }

  /** `astuple(p)`: the field values in declaration order, so cell `i` is the field named by header entry `i`. */
  function AsTuple(p: Product): (row: seq<Cell>)
    ensures |row| == |TitleRow|
    ensures forall i :: 0 <= i < |row| ==> FieldByName(p, TitleRow[i]) == Some(row[i])
  {
    [Text(p.title), Text(p.description), Text(p.price), Number(p.rating), Number(p.numOfReviews)]
  }

  /**
   * The rows `save_to_csv` hands to the writer: the header first, then one
   * row per product in the given order.
   */
  function ExportRows(products: seq<Product>): (rows: seq<seq<Cell>>)
    ensures |rows| == |products| + 1
    ensures |rows[0]| == |TitleRow| && forall j :: 0 <= j < |TitleRow| ==> rows[0][j] == Text(TitleRow[j])
    ensures forall i :: 1 <= i < |rows| ==> |rows[i]| == |rows[0]|
    ensures forall i, j :: 0 <= i < |products| && 0 <= j < |rows[0]| ==>
              rows[0][j].Text? && FieldByName(products[i], rows[0][j].text) == Some(rows[i + 1][j])
  {
    [HeaderCells()] + seq(|products|, i requires 0 <= i < |products| => AsTuple(products[i]))
  }

  /** The header cells: each names a distinct field of `Product`. */
  function HeaderCells(): (cells: seq<Cell>)
    ensures |cells| == |TitleRow|
    ensures forall i, j :: 0 <= i < j < |cells| ==> cells[i] != cells[j]
    ensures forall p: Product, j :: 0 <= j < |cells| ==> cells[j].Text? && FieldByName(p, cells[j].text).Some?
  {
    seq(|TitleRow|, i requires 0 <= i < |TitleRow| => Text(TitleRow[i]))
  }
}
