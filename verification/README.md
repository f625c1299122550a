# Amazon books ETL: a verified model of the scrape-and-load core

The repository is a daily Airflow workflow with three tasks: `fetch_book_data`
scrapes book listings from the paginated Amazon search results for "data
engineering books", `create_table` makes sure the `books` table exists, and
`insert_book_data` writes the scraped records into it. This project models the
two pieces of that workflow that carry logic of their own, both in
`dags/amazon_books.py`:

- `get_amazon_data_books`, the scraper. It reads result pages 1, 2, 3, ... in
  order. On each fetched page it drops every result container that lacks a
  title, author, price or rating element. It skips every record whose stripped
  title was already seen. It appends the rest to an ordered list. It stops once
  the list holds `num_books` records or a page fetch fails. Then it cuts the list
  to `num_books` and deduplicates it by title once more (the DataFrame step)
  before handing it on.
- `insert_book_data_into_postgres`, the loader. It raises an error when the
  handed-off data is empty or missing. Otherwise it runs one insert per record,
  in order.

Files:

- `wrappers.dfy` (module `Wrappers`): `Option` and `Outcome`.
- `text.dfy` (module `Text`): Python's `str.strip()`, with `str.isspace()` as
  its whitespace set, and lemmas stating what it removes and keeps.
- `books.dfy` (module `Books`): candidates, pages and records; the records a
  page contributes; the record stream of several pages; first-seen-wins title
  deduplication (`Dedup`) and its characterisation.
- `scraper.dfy` (module `Scraper`): the fetch primitive over a given sequence of
  page responses; the reference definition `Scraped` of what the scraper
  returns; the imperative loop `GetAmazonDataBooks`, with the per-page pass
  `CollectPage`, proved equal to `Scraped`; and the properties of `Scraped`.
- `loader.dfy` (module `Loader`): the `books` table as a class whose `rows` the
  insert appends to, and the loader method.

How the scraper is specified. `Stream(pages[..k])` is the list of records built
from the complete candidates of the first `k` pages, in reading order.
`Harvest(pages, k) = Dedup(Stream(pages[..k]))` is what the loop holds after
reading `k` pages. `StopIndex(pages, n)` is the first `k` at which the loop stops:
either it holds at least `n` records, or page `k + 1` cannot be fetched.
`Scraped(pages, n)` is `Harvest(pages, StopIndex(pages, n))` cut to `n` with
Python's slice semantics. The loop method is proved to return exactly `Scraped`.
The lemmas then state the properties of `Scraped` for every input.

Behaviour of the code that the model fixes explicitly:

- The fetch count `num_books` is any `int`, so the model takes any `int`. A
  target of zero or less reads no page and returns nothing.
- The loader raises `ValueError("No book data found")` on an empty or missing
  hand-off. The model returns `Fail(NoBookData)` and writes nothing.
- In the code, the `while` loop never ends if every page is fetched but never
  yields enough new titles. The model is given a finite sequence of page
  responses, and any page past its end counts as a failed fetch. So the loop
  always ends.

## Model

| member | source | states |
|---|---|---|
| `Text.StripSpec` | dags/amazon_books.py:60 | the stripped text is no longer than the input and begins and ends with non-whitespace (or is empty) |
| `Text.StripIsSlice` | dags/amazon_books.py:67-69 | stripping keeps one contiguous slice of the text and removes only whitespace before and after it |
| `Text.TrimStartSpec` | dags/amazon_books.py:60 | leading-whitespace removal returns a suffix whose dropped part is all whitespace and whose first character is not whitespace |
| `Text.TrimEndSpec` | dags/amazon_books.py:60 | trailing-whitespace removal returns a prefix whose dropped part is all whitespace and whose last character is not whitespace |
| `Books.CompleteBooksSound` | dags/amazon_books.py:53-59 | every record a page contributes is built, by stripping all four fields, from a candidate of that page with title, author, price and rating all present |
| `Books.CompleteBooksComplete` | dags/amazon_books.py:53-59 | every candidate with all four fields present contributes its record, at a position of the page's records that the lemma returns |
| `Books.StreamSound` | dags/amazon_books.py:38-71 | every record read from a run of pages belongs to one of its fetched pages |
| `Books.StreamComplete` | dags/amazon_books.py:38-71 | every record of a fetched page in the run is read |
| `Books.StreamPrefix` | dags/amazon_books.py:38-71 | reading more pages only appends to the records read, in page order |
| `Books.DedupSpec` | dags/amazon_books.py:60-64 | title deduplication keeps exactly the set of titles of its input, no two kept records share a title, and every kept record comes from the input |
| `Books.DedupKeepsFirstOccurrence` | dags/amazon_books.py:63-70 | each kept record is the first record of the input with its title |
| `Books.DedupFirstSeenOrder` | dags/amazon_books.py:63-70 | kept records follow the order in which their titles first occur in the input |
| `Books.DedupPrefixKeepsFirstSeen` | dags/amazon_books.py:63-70 | every prefix of the deduplicated list consists of first occurrences in first-seen order and leaves out no title first seen earlier |
| `Books.DedupPrefix` | dags/amazon_books.py:63-70 | reading more records only appends to the deduplicated list |
| `Books.DedupOfUnique` | dags/amazon_books.py:83 | dropping duplicate titles from a list whose titles are already distinct changes nothing |
| `Scraper.StopIndex` | dags/amazon_books.py:38-74 | the loop reads pages until the first one at which it already holds `num_books` records or the fetch fails, and not beyond |
| `Scraper.Truncate` | dags/amazon_books.py:77 | `books[:num_books]` is a prefix of `books`; for a non-negative count it has that many elements unless `books` is shorter, and for a negative count `-m` it drops the last `m` elements (or all of them) |
| `Scraper.ScrapedShape` | dags/amazon_books.py:77-83 | the result has at most `num_books` records (none for a target of zero or less), its titles are pairwise distinct, and dropping duplicate titles from it changes nothing |
| `Scraper.HarvestPrefix` | dags/amazon_books.py:38-71 | reading more pages only appends to the unique records collected |
| `Scraper.CollectPage` | dags/amazon_books.py:53-70 | one pass over a page appends the complete candidates with unseen titles, in page order, and keeps the seen-set equal to the titles collected |
| `Scraper.GetAmazonDataBooks` | dags/amazon_books.py:34-86 | the loop returns exactly `Scraped`; the result has at most `num_books` records, none for a target of zero or less, and pairwise distinct titles |
| `Scraper.FailureOnPage` | dags/amazon_books.py:45-77 | a failed fetch of page `k + 1` after pages `1..k` succeeded returns exactly the unique complete records of pages `1..k`, cut to `num_books` |
| `Scraper.FirstPageFailure` | dags/amazon_books.py:45-74 | when page 1 cannot be fetched the result is empty |
| `Scraper.TargetReached` | dags/amazon_books.py:38-77 | when the pages read successfully hold at least `num_books` unique complete records, the result has exactly `num_books` records and is a prefix of the collected list |
| `Scraper.ScrapedFromCompleteCandidate` | dags/amazon_books.py:59-70 | every returned record was built from a candidate with all four fields present, on a page the loop fetched before it stopped |
| `Scraper.ScrapedKeepsFirstSeen` | dags/amazon_books.py:53-77 | every returned record is the first occurrence of its title across and within pages, returned records follow first-seen order, and no title first seen earlier is missing |
| `Loader.BooksTable.Insert` | dags/amazon_books.py:105-112 | an insert appends one row with title, authors, price and rating and changes nothing else |
| `Loader.InsertBookDataIntoPostgres` | dags/amazon_books.py:99-112 | an empty or missing hand-off fails and writes nothing; otherwise exactly one row per record is appended, in record order, mapping Title, Author, Price and Rating to title, authors, price and rating |

## Left out

- HTTP requests (`requests.get`, the request headers and the page URL): network
  I/O. The responses are an input sequence `pages`, each either `Failed` (a
  status code other than 200) or the parsed page. `Scraper.FetchPage` defines
  how the loop reads them: page `p` is `pages[p - 1]`, and any page past the end
  of `pages` is `Failed`.
- HTML parsing with BeautifulSoup (the result containers and the four element
  lookups): a foreign library. A page is given as its list of candidates, and
  each field is the element's text or absent. A found element always counts as
  present.
- Python's `str.strip()` is modelled for whitespace as `str.isspace()` defines
  it. Case, normalisation and encoding do not arise.
- The pandas DataFrame built from the records and its conversion back to a list
  of dictionaries: a foreign library. Its `drop_duplicates(subset="Title")` is
  modelled as `Dedup`, which keeps the first occurrence, and is proved to
  change nothing there.
- The XCom push and pull: orchestrator state. The scraper's result is passed to
  the loader directly, as `Some(records)`. `None` stands for a missing hand-off.
- `PostgresHook`, the connection and the SQL text: the database transport. The
  table is modelled as the sequence of rows inserted into it. The generated
  `id` column is not modelled.
- The `create_table` task (`CREATE TABLE IF NOT EXISTS`): its idempotence is
  the database's promise, not this code's.
- The DAG definition, schedule, retries and task order: configuration for the
  scheduler.
- The `print` on a failed fetch: console output.
- `GetAmazonDataBooks`: a `requests.get` that raises instead of returning a
  response (a connection error or a timeout, dags/amazon_books.py:42) is not
  modelled. In the code it ends the task with no hand-off, because the
  `xcom_push` at dags/amazon_books.py:86 is never reached, and the scheduler
  retries the task. `Failed` stands only for a response whose status is not 200.
- `GetAmazonDataBooks`: the scraper's endless loop, which happens when every
  page is fetched but too few new titles ever appear, cannot occur in the model,
  because any page past the supplied ones is a failed fetch.
- `InsertBookDataIntoPostgres`: a failed insert part-way through the records
  (a database error) is not modelled. Every insert succeeds.
