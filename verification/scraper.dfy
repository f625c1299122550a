/**
 * The collect-and-deduplicate loop of the book scraper: result pages are
 * read in order from page 1, incomplete candidates are dropped, repeated
 * titles are skipped, and reading stops once enough records are collected
 * or a page cannot be fetched. The collected list is then cut to the
 * requested count.
 *
 * The HTTP request and the HTML parsing are not modelled: the responses are
 * given as `pages`, where `pages[p - 1]` is the response for page `p`, and
 * every page past the end of `pages` is a failed fetch.
 */
module Scraper {
  import opened Books

  /** The response to the request for result page `page` (numbered from 1). */
  function FetchPage(pages: seq<Page>, page: nat): Page
    requires 1 <= page
  {
    if page <= |pages| then pages[page - 1] else Failed
  }

  /** The unique records collected after reading the first `k` pages. */
  function Harvest(pages: seq<Page>, k: nat): seq<Book>
    requires k <= |pages|
  {
    Dedup(Stream(pages[..k]))
  }

  /** Reading one more fetched page deduplicates its records after those already read. */
  lemma HarvestNext(pages: seq<Page>, k: nat)
    requires k < |pages| && pages[k].Fetched?
    ensures Harvest(pages, k + 1) == Dedup(Stream(pages[..k]) + CompleteBooks(pages[k].candidates))
  {
    assert pages[..k + 1][..k] == pages[..k];
  }

  /**
   * The loop does not go past page index `k` (0-based): it already holds
   * `n` records, or the fetch of that page fails.
   */
  predicate Stops(pages: seq<Page>, n: int, k: nat)
    requires k <= |pages|
  {
    n <= |Harvest(pages, k)| || k == |pages| || pages[k].Failed?
  }

  /** The number of pages the loop reads successfully: the first index at which it stops. */
  function StopIndex(pages: seq<Page>, n: int): (k: nat)
    ensures k <= |pages| && Stops(pages, n, k)
    ensures forall j :: 0 <= j < k ==> !Stops(pages, n, j)
  {
    StopFrom(pages, n, 0)
  }

  function StopFrom(pages: seq<Page>, n: int, i: nat): (k: nat)
    requires i <= |pages|
    requires forall j :: 0 <= j < i ==> !Stops(pages, n, j)
    ensures i <= k <= |pages| && Stops(pages, n, k)
    ensures forall j :: 0 <= j < k ==> !Stops(pages, n, j)
    decreases |pages| - i
  {
    if Stops(pages, n, i) then i else StopFrom(pages, n, i + 1)
  }

  /** The first index at which the loop stops is `StopIndex`. */
  lemma StopIndexIsFirstStop(pages: seq<Page>, n: int, k: nat)
    requires k <= |pages| && Stops(pages, n, k)
    requires forall j :: 0 <= j < k ==> !Stops(pages, n, j)
    ensures StopIndex(pages, n) == k
  {
  }

  /** Up to `StopIndex`, an index at which the loop goes on lies before it. */
  lemma BeforeStop(pages: seq<Page>, n: int, k: nat)
    requires k <= |pages| && k <= StopIndex(pages, n)
    ensures Stops(pages, n, k) <==> k == StopIndex(pages, n)
  {
  }

  /**
   * Python's slice `s[:n]`: the first `n` elements, or for a negative `n`
   * all but the last `-n`.
   */
  function Truncate<T>(s: seq<T>, n: int): (r: seq<T>)
    ensures |r| <= |s| && r == s[..|r|]
    ensures 0 <= n ==> |r| <= n && (|r| == n || r == s)
    ensures n < 0 ==> |r| == (if -n < |s| then |s| + n else 0)
  {
    if 0 <= n then (if n < |s| then s[..n] else s)
    else (if -n < |s| then s[..|s| + n] else [])
  }

  /** What the scraper returns for target count `n`: the reference definition of the loop. */
  function Scraped(pages: seq<Page>, n: int): seq<Book>
  {
    Truncate(Harvest(pages, StopIndex(pages, n)), n)
  }

  lemma AppendOne<T>(a: seq<T>, b: seq<T>, x: T)
    ensures a + (b + [x]) == (a + b) + [x]
  {
  }

  /**
   * One pass over the result containers of a fetched page: each complete
   * candidate whose stripped title has not been seen yet is appended and
   * its title marked as seen. `prior` is the stream of records read so far,
   * of which `books` is the deduplication.
   */
  method CollectPage(bookContainers: seq<Candidate>, books0: seq<Book>, seenTitles0: set<string>, ghost prior: seq<Book>)
    returns (books: seq<Book>, seenTitles: set<string>)
    requires books0 == Dedup(prior) && seenTitles0 == TitlesOf(books0)
    ensures books == Dedup(prior + CompleteBooks(bookContainers))
    ensures seenTitles == TitlesOf(books)
  {
    books, seenTitles := books0, seenTitles0;
    assert prior + CompleteBooks(bookContainers[..0]) == prior;
    for i := 0 to |bookContainers|
      invariant books == Dedup(prior + CompleteBooks(bookContainers[..i]))
      invariant seenTitles == TitlesOf(books)
    {
      var book := bookContainers[i];
      ghost var stream := prior + CompleteBooks(bookContainers[..i]);
      CompleteBooksNext(bookContainers, i);
      if book.title.Some? && book.author.Some? && book.price.Some? && book.rating.Some? {
        var bookTitle := Text.Strip(book.title.value);
        ghost var x := Extract(book);
        assert (stream + [x])[..|stream|] == stream;
        assert Complete(book);
        assert CompleteBooks(bookContainers[..i + 1]) == CompleteBooks(bookContainers[..i]) + [x];
        AppendOne(prior, CompleteBooks(bookContainers[..i]), x);
        assert Dedup(stream + [x]) == if x.title in TitlesOf(books) then books else books + [x];
        if bookTitle !in seenTitles {
          TitlesOfAppend(books, x);
          seenTitles := seenTitles + {bookTitle};
          books := books + [Book(
            bookTitle,
            Text.Strip(book.author.value),
            Text.Strip(book.price.value),
            Text.Strip(book.rating.value))];
        }
      } else {
        assert prior + CompleteBooks(bookContainers[..i + 1]) == stream;
      }
    }
    assert bookContainers[..|bookContainers|] == bookContainers;
  }

  /**
   * The scraping task: reads pages until `numBooks` records are collected or
   * a fetch fails, cuts the list to `numBooks`, and deduplicates it by title
   * once more, as the DataFrame step does, before handing it on.
   */
  method GetAmazonDataBooks(numBooks: int, pages: seq<Page>) returns (records: seq<Book>)
    ensures records == Scraped(pages, numBooks)
    ensures 0 <= numBooks ==> |records| <= numBooks
    ensures numBooks <= 0 ==> records == []
    ensures UniqueTitles(records)
  {
    var books: seq<Book> := [];
    var seenTitles: set<string> := {};
    var page: nat := 1;
    HarvestNone(pages);
    while |books| < numBooks
      invariant 1 <= page <= |pages| + 1
      invariant books == Harvest(pages, page - 1)
      invariant seenTitles == TitlesOf(books)
      invariant page - 1 <= StopIndex(pages, numBooks)
      decreases |pages| + 1 - page
    {
      var response := FetchPage(pages, page);
      if response.Fetched? {
        assert !Stops(pages, numBooks, page - 1);
        BeforeStop(pages, numBooks, page - 1);
        books, seenTitles := CollectPage(response.candidates, books, seenTitles, Stream(pages[..page - 1]));
        HarvestNext(pages, page - 1);
        page := page + 1;
      } else {
        break;
      }
    }
    assert Stops(pages, numBooks, page - 1);
    BeforeStop(pages, numBooks, page - 1);
    assert books == Harvest(pages, StopIndex(pages, numBooks));
    books := Truncate(books, numBooks);
    assert books == Scraped(pages, numBooks);
    // Titles are already distinct, so dropping duplicates changes nothing.
    ScrapedShape(pages, numBooks);
    records := Dedup(books);
  }

  /** Before any page is read nothing is collected. */
  lemma HarvestNone(pages: seq<Page>)
    ensures Harvest(pages, 0) == []
  {
    assert pages[..0] == [];
  }

  /**
   * The result has at most `n` records (none for `n <= 0`), its titles are
   * distinct, and dropping duplicate titles from it changes nothing.
   */
  lemma ScrapedShape(pages: seq<Page>, n: int)
    ensures 0 <= n ==> |Scraped(pages, n)| <= n
    ensures n <= 0 ==> Scraped(pages, n) == []
    ensures UniqueTitles(Scraped(pages, n))
    ensures Dedup(Scraped(pages, n)) == Scraped(pages, n)
  {
    var h := Harvest(pages, StopIndex(pages, n));
    var r := Truncate(h, n);
    DedupSpec(Stream(pages[..StopIndex(pages, n)]));
    assert r == h[..|r|];
    assert UniqueTitles(r) by {
      forall i, j | 0 <= i < j < |r| ensures r[i].title != r[j].title {
        assert r[i] == h[i] && r[j] == h[j];
      }
    }
    DedupOfUnique(r);
    if n <= 0 {
      HarvestNone(pages);
      assert Stops(pages, n, 0);
      StopIndexIsFirstStop(pages, n, 0);
    }
  }

  /** Reading more pages only appends to the unique records collected. */
  lemma HarvestPrefix(pages: seq<Page>, j: nat, k: nat)
    requires j <= k <= |pages|
    ensures |Harvest(pages, j)| <= |Harvest(pages, k)|
    ensures Harvest(pages, k)[..|Harvest(pages, j)|] == Harvest(pages, j)
  {
    var sj := Stream(pages[..j]);
    var sk := Stream(pages[..k]);
    StreamPrefix(pages, j, k);
    assert sk == sj + sk[|sj|..];
    DedupPrefix(sj, sk[|sj|..]);
  }

  /**
   * A failed fetch of page `k + 1` (index `k`), after pages `1..k` were all
   * fetched, yields exactly the unique complete records of pages `1..k`,
   * cut to `n`.
   */
  lemma FailureOnPage(pages: seq<Page>, n: int, k: nat)
    requires 0 <= n
    requires k <= |pages| && (k == |pages| || pages[k].Failed?)
    requires forall j :: 0 <= j < k ==> pages[j].Fetched?
    ensures Scraped(pages, n) == Truncate(Harvest(pages, k), n)
  {
    var s := StopIndex(pages, n);
    assert Stops(pages, n, k);
    assert s <= k;
    if s < k {
      // The loop stopped early, so it had already collected `n` records.
      assert pages[s].Fetched?;
      assert n <= |Harvest(pages, s)|;
      HarvestPrefix(pages, s, k);
      assert Harvest(pages, k)[..n] == Harvest(pages, s)[..n];
    }
  }

  /** When the very first page cannot be fetched, nothing is returned. */
  lemma FirstPageFailure(pages: seq<Page>, n: int)
    requires |pages| == 0 || pages[0].Failed?
    ensures Scraped(pages, n) == []
  {
  }

  /**
   * When pages `1..k` are all fetched and hold at least `n` unique complete
   * records, the result has exactly `n` records: the first `n` collected.
   */
  lemma TargetReached(pages: seq<Page>, n: int, k: nat)
    requires 0 <= n
    requires k <= |pages| && n <= |Harvest(pages, k)|
    requires forall j :: 0 <= j < k ==> pages[j].Fetched?
    ensures |Scraped(pages, n)| == n
    ensures Scraped(pages, n) == Harvest(pages, k)[..n]
  {
    var s := StopIndex(pages, n);
    assert Stops(pages, n, k);
    if s < k {
      HarvestPrefix(pages, s, k);
      assert Harvest(pages, k)[..n] == Harvest(pages, s)[..n];
    }
  }

  /**
   * Every returned record was built from a complete candidate of a page
   * the loop fetched: candidate `i` of page index `j`, read before it stopped.
   */
  lemma ScrapedFromCompleteCandidate(pages: seq<Page>, n: int, b: Book) returns (j: nat, i: nat)
    requires b in Scraped(pages, n)
    ensures j < StopIndex(pages, n) && pages[j].Fetched?
    ensures i < |pages[j].candidates| && Complete(pages[j].candidates[i])
    ensures b == Extract(pages[j].candidates[i])
  {
    var k := StopIndex(pages, n);
    var ps := pages[..k];
    assert b in Harvest(pages, k);
    DedupSpec(Stream(ps));
    j := StreamSound(ps, b);
    assert ps[j] == pages[j];
    i := CompleteBooksSound(pages[j].candidates, b);
  }

  /**
   * First seen wins across and within pages: with `s` the records of the
   * pages read, in reading order, each returned record is the first record
   * of `s` with its title, the returned records follow the order of those
   * first occurrences, and no title first seen before a returned one is
   * missing from the result.
   */
  lemma ScrapedKeepsFirstSeen(pages: seq<Page>, n: int)
    ensures var s := Stream(pages[..StopIndex(pages, n)]);
      var r := Scraped(pages, n);
      && (forall i :: 0 <= i < |r| ==>
            r[i].title in TitlesOf(s) && r[i] == s[FirstIndex(s, r[i].title)])
      && (forall i, j :: 0 <= i < j < |r| ==>
            FirstIndex(s, r[i].title) < FirstIndex(s, r[j].title))
      && (forall i, t :: 0 <= i < |r| && t in TitlesOf(s) && FirstIndex(s, t) < FirstIndex(s, r[i].title) ==>
            t in TitlesOf(r))
  {
    var s := Stream(pages[..StopIndex(pages, n)]);
    var r := Scraped(pages, n);
    DedupPrefixKeepsFirstSeen(s, |r|);
  }
}
