/**
 * The loading task: the scraped records are written to the `books` table,
 * one insert per record, in order. An empty or missing hand-off is an
 * error and writes nothing.
 */
module Loader {
  import opened Wrappers
  import opened Books

  /** A row of the `books` table, in the column order of the insert statement. */
  datatype Row = Row(title: string, authors: string, price: string, rating: string)

  /** The row an insert writes for a record: Title, Author, Price, Rating become title, authors, price, rating. */
  function ToRow(b: Book): Row
  {
    Row(b.title, b.author, b.price, b.rating)
  }

  /** The `books` table as the rows inserted into it, oldest first. */
  class BooksTable {
    var rows: seq<Row>

    constructor ()
      ensures rows == []
    {
      rows := [];
    }

    /** `INSERT INTO books (title, authors, price, rating) VALUES (...)`: appends one row. */
    method Insert(title: string, authors: string, price: string, rating: string)
      modifies this
      ensures rows == old(rows) + [Row(title, authors, price, rating)]
    {
      rows := rows + [Row(title, authors, price, rating)];
    }
  }

  /** The error raised when the hand-off holds no records (`ValueError`). */
  datatype LoadError = NoBookData

  /**
   * Inserts the handed-off records. `bookData` is `None` when nothing was
   * handed off. An empty or missing hand-off fails before anything is
   * written; otherwise exactly one row per record is appended, in record
   * order, and nothing else is written.
   */
  method InsertBookDataIntoPostgres(bookData: Option<seq<Book>>, table: BooksTable) returns (outcome: Outcome<LoadError>)
    modifies table
    ensures outcome.Fail? <==> bookData == None || bookData == Some([])
    ensures outcome.Fail? ==> outcome.error == NoBookData && table.rows == old(table.rows)
    ensures outcome.Pass? ==> |table.rows| == |old(table.rows)| + |bookData.value|
    ensures outcome.Pass? ==> table.rows[..|old(table.rows)|] == old(table.rows)
    ensures outcome.Pass? ==> forall i :: 0 <= i < |bookData.value| ==>
      table.rows[|old(table.rows)| + i] == ToRow(bookData.value[i])
  {
    if bookData == None || bookData == Some([]) {
      return Fail(NoBookData);
    }
    var books := bookData.value;
    ghost var before := table.rows;
    for k := 0 to |books|
      invariant |table.rows| == |before| + k
      invariant table.rows[..|before|] == before
      invariant forall i :: 0 <= i < k ==> table.rows[|before| + i] == ToRow(books[i])
    {
      var book := books[k];
      table.Insert(book.title, book.author, book.price, book.rating);
    }
    outcome := Pass;
  }
}
