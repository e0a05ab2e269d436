/** The relational catalog as the user service sees it: the `Book` table, one row per ISBN,
    each row carrying the `user_id` of the user who published it. The calls the controller makes
    against it are functions on its contents. */
module CatalogStore {
  import opened Models

  /** A row of the `Book` table. Its ISBN is the key under which `Catalog.rows` holds it;
      `owner` is the `user_id` column, the user id text the publishing request carried. */
  datatype Row = Row(
    bookId: int,
    title: string,
    author: string,
    genre: Option<string>,
    description: Option<string>,
    price: Price,
    stockQuantity: int,
    publisher: Option<string>,
    imageLink: Option<string>,
    owner: string)

  /** The table: the rows addressable by ISBN, unique per ISBN, and the rows inserted with a NULL
      ISBN, which no `ISBN = @isbn` comparison ever matches. That the table accepts a NULL ISBN
      at all is an assumption about its schema and the `InsertBook` procedure. */
  datatype Catalog = Catalog(rows: map<string, Row>, unkeyed: seq<Row>)

  /** The number of rows in the table. */
  function RowCount(c: Catalog): nat {
    |c.rows| + |c.unkeyed|
  }

  /** `IsISBNPresentINTable`: whether a row with this ISBN exists. A NULL ISBN matches no row. */
  function IsbnPresent(c: Catalog, isbn: Option<string>): (r: bool)
    ensures isbn.None? ==> !r
  {
    isbn.Some? && isbn.value in c.rows
  }

  /** `SELECT ... FROM Book WHERE ISBN = @isbn`: the row with this ISBN, if any. */
  function FindByIsbn(c: Catalog, isbn: string): (r: Option<Row>)
    ensures r.Some? <==> IsbnPresent(c, Some(isbn))
    ensures r.Some? ==> r.value == c.rows[isbn]
  {
    if isbn in c.rows then Some(c.rows[isbn]) else None
  }

  /** `InsertBook`: adds one row under its ISBN. None is the duplicate-key failure of an ISBN
      that is already present. A row with a NULL ISBN is assumed to be stored as an unkeyed row. */
  function InsertBook(c: Catalog, isbn: Option<string>, row: Row): (r: Option<Catalog>)
    ensures r.None? <==> IsbnPresent(c, isbn)
    ensures r.Some? ==> RowCount(r.value) == RowCount(c) + 1
    ensures r.Some? && isbn.Some? ==> FindByIsbn(r.value, isbn.value) == Some(row)
    ensures r.Some? ==> forall j :: Some(j) != isbn ==> FindByIsbn(r.value, j) == FindByIsbn(c, j)
  {
    match isbn
    case None => Some(c.(unkeyed := c.unkeyed + [row]))
    case Some(i) =>
      if i in c.rows then None
      else
        assert c.rows[i := row].Keys == c.rows.Keys + {i};
        Some(c.(rows := c.rows[i := row]))
  }

  /** `DELETE FROM Book WHERE ISBN = @isbn`: the table afterwards and the number of rows affected. */
  function DeleteByIsbn(c: Catalog, isbn: string): (r: (Catalog, nat))
    ensures r.1 <= 1 && (r.1 == 1 <==> IsbnPresent(c, Some(isbn)))
    ensures RowCount(r.0) + r.1 == RowCount(c)
    ensures FindByIsbn(r.0, isbn).None?
    ensures forall j :: j != isbn ==> FindByIsbn(r.0, j) == FindByIsbn(c, j)
    ensures r.0.unkeyed == c.unkeyed
  {
    if isbn in c.rows then
      assert (c.rows - {isbn}).Keys + {isbn} == c.rows.Keys;
      (c.(rows := c.rows - {isbn}), 1)
    else
      (c, 0)
  }

  /** A delete keeps every row under another ISBN as it was. */
  lemma DeleteKeepsOtherRows(c: Catalog, isbn: string, other: string)
    requires other != isbn && other in c.rows
    ensures other in DeleteByIsbn(c, isbn).0.rows && DeleteByIsbn(c, isbn).0.rows[other] == c.rows[other]
  {
    assert FindByIsbn(DeleteByIsbn(c, isbn).0, other) == FindByIsbn(c, other);
  }

  /** Deleting an ISBN twice: the second delete affects no row and changes nothing. */
  lemma DeleteTwice(c: Catalog, isbn: string)
    ensures var c1 := DeleteByIsbn(c, isbn).0; DeleteByIsbn(c1, isbn) == (c1, 0)
  {
  }

  /** An insert under a fresh ISBN followed by a delete of that ISBN leaves the table as it was. */
  lemma InsertThenDelete(c: Catalog, isbn: string, row: Row)
    requires !IsbnPresent(c, Some(isbn))
    ensures InsertBook(c, Some(isbn), row).Some?
    ensures DeleteByIsbn(InsertBook(c, Some(isbn), row).value, isbn) == (c, 1)
  {
    var c1 := InsertBook(c, Some(isbn), row).value;
    assert c1.rows - {isbn} == c.rows;
  }
}
