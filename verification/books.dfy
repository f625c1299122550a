/**
 * The records the scraper works on: candidates parsed from one result page,
 * the book records built from them, and the first-seen-wins title
 * deduplication that both the scraping loop and the later DataFrame
 * `drop_duplicates(subset="Title")` perform.
 */
module Books {
  import opened Wrappers
  import opened Text

  /**
   * One result container on a page, as parsed: the text of the title,
   * author, price and rating elements, each `None` when the element is not
   * found in the container.
   */
  datatype Candidate = Candidate(
    title: Option<string>,
    author: Option<string>,
    price: Option<string>,
    rating: Option<string>)

  /** The response for one result page: a failed fetch, or the page's candidates in document order. */
  datatype Page = Failed | Fetched(candidates: seq<Candidate>)

  /** A scraped record, with the keys "Title", "Author", "Price" and "Rating". */
  datatype Book = Book(title: string, author: string, price: string, rating: string)

  /** A candidate is kept only when all four elements were found. */
  predicate Complete(c: Candidate)
  {
    c.title.Some? && c.author.Some? && c.price.Some? && c.rating.Some?
  }

  /** The record built from a complete candidate: every field stripped. */
  function Extract(c: Candidate): Book
    requires Complete(c)
  {
    Book(Strip(c.title.value), Strip(c.author.value), Strip(c.price.value), Strip(c.rating.value))
  }

  /**
   * The records built from the complete candidates of one page, in page
   * order; incomplete candidates are dropped.
   */
  function CompleteBooks(cs: seq<Candidate>): (r: seq<Book>)
    ensures |r| <= |cs|
  {
    if cs == [] then []
    else
      var last := cs[|cs| - 1];
      CompleteBooks(cs[..|cs| - 1]) + (if Complete(last) then [Extract(last)] else [])
  }

  /**
   * Every record a page contributes was built from one of its complete
   * candidates: the one at position `i`.
   */
  lemma {:induction false} CompleteBooksSound(cs: seq<Candidate>, b: Book) returns (i: nat)
    requires b in CompleteBooks(cs)
    ensures i < |cs| && Complete(cs[i]) && b == Extract(cs[i])
  {
    var init := cs[..|cs| - 1];
    if b in CompleteBooks(init) {
      i := CompleteBooksSound(init, b);
      assert cs[i] == init[i];
    } else {
      i := |cs| - 1;
    }
  }

  /** Every complete candidate of a page contributes its record: at position `k`. */
  lemma {:induction false} CompleteBooksComplete(cs: seq<Candidate>, i: nat) returns (k: nat)
    requires i < |cs| && Complete(cs[i])
    ensures k < |CompleteBooks(cs)| && CompleteBooks(cs)[k] == Extract(cs[i])
  {
    var init := cs[..|cs| - 1];
    if i < |init| {
      k := CompleteBooksComplete(init, i);
      assert init[i] == cs[i];
    } else {
      k := |CompleteBooks(init)|;
    }
  }

  /** Reading one more candidate of a page adds its record exactly when it is complete. */
  lemma CompleteBooksNext(cs: seq<Candidate>, i: nat)
    requires i < |cs|
    ensures CompleteBooks(cs[..i + 1]) ==
      CompleteBooks(cs[..i]) + (if Complete(cs[i]) then [Extract(cs[i])] else [])
  {
    assert cs[..i + 1][..i] == cs[..i];
  }

  /** The records one page contributes: none for a failed fetch. */
  function PageBooks(p: Page): seq<Book>
  {
    if p.Fetched? then CompleteBooks(p.candidates) else []
  }

  /**
   * All records built from complete candidates of the given pages, page
   * after page, before any deduplication.
   */
  function Stream(pages: seq<Page>): (r: seq<Book>)
  {
    if pages == [] then []
    else Stream(pages[..|pages| - 1]) + PageBooks(pages[|pages| - 1])
  }

  /** Every record read from `pages` comes from fetched page `j`. */
  lemma {:induction false} StreamSound(pages: seq<Page>, b: Book) returns (j: nat)
    requires b in Stream(pages)
    ensures j < |pages| && pages[j].Fetched? && b in CompleteBooks(pages[j].candidates)
  {
    var init := pages[..|pages| - 1];
    if b in Stream(init) {
      j := StreamSound(init, b);
      assert init[j] == pages[j];
    } else {
      j := |pages| - 1;
    }
  }

  /** Every record of fetched page `j` is read from `pages`. */
  lemma {:induction false} StreamComplete(pages: seq<Page>, j: nat, b: Book)
    requires j < |pages| && pages[j].Fetched? && b in CompleteBooks(pages[j].candidates)
    ensures b in Stream(pages)
  {
    var init := pages[..|pages| - 1];
    if j < |init| {
      StreamComplete(init, j, b);
      assert init[j] == pages[j];
      InAppend(Stream(init), PageBooks(pages[|pages| - 1]), b);
    }
  }

  /** Reading more pages only appends to the stream of records. */
  lemma {:induction false} StreamPrefix(pages: seq<Page>, j: nat, k: nat)
    requires j <= k <= |pages|
    ensures |Stream(pages[..j])| <= |Stream(pages[..k])|
    ensures Stream(pages[..k])[..|Stream(pages[..j])|] == Stream(pages[..j])
  {
    if j < k {
      StreamPrefix(pages, j, k - 1);
      assert pages[..k][..k - 1] == pages[..k - 1];
      assert Stream(pages[..k]) == Stream(pages[..k - 1]) + PageBooks(pages[k - 1]);
      PrefixOfAppend(Stream(pages[..k - 1]), PageBooks(pages[k - 1]), |Stream(pages[..j])|);
    }
  }

  lemma InAppend<T>(a: seq<T>, c: seq<T>, x: T)
    requires x in a
    ensures x in a + c
  {
    assert (a + c)[..|a|] == a;
  }

  lemma PrefixOfAppend<T>(a: seq<T>, c: seq<T>, m: nat)
    requires m <= |a|
    ensures (a + c)[..m] == a[..m]
  {
  }

  /** The set of titles of a list of records (the scraper's `seen_titles`). */
  function TitlesOf(s: seq<Book>): set<string>
  {
    if s == [] then {} else TitlesOf(s[..|s| - 1]) + {s[|s| - 1].title}
  }

  /** No two records share a title. */
  predicate UniqueTitles(s: seq<Book>)
  {
    forall i, j :: 0 <= i < j < |s| ==> s[i].title != s[j].title
  }

  lemma TitlesOfAppend(s: seq<Book>, x: Book)
    ensures TitlesOf(s + [x]) == TitlesOf(s) + {x.title}
  {
    assert (s + [x])[..|s|] == s;
  }

  /** The title of every record of a list is among its titles. */
  lemma {:induction false} TitleIn(s: seq<Book>, i: nat)
    requires i < |s|
    ensures s[i].title in TitlesOf(s)
  {
    if i < |s| - 1 {
      TitleIn(s[..|s| - 1], i);
    }
  }

  /**
   * Title deduplication keeping the first occurrence: each record is kept
   * unless an earlier record with the same title was kept.
   */
  function Dedup(s: seq<Book>): (d: seq<Book>)
    ensures |d| <= |s|
  {
    if s == [] then []
    else
      var d := Dedup(s[..|s| - 1]);
      var x := s[|s| - 1];
      if x.title in TitlesOf(d) then d else d + [x]
  }

  /**
   * Deduplication keeps exactly the titles of its input, keeps no title
   * twice, and keeps only records of its input.
   */
  lemma {:induction false} DedupSpec(s: seq<Book>)
    ensures forall b :: b in Dedup(s) ==> b in s
    ensures TitlesOf(Dedup(s)) == TitlesOf(s)
    ensures UniqueTitles(Dedup(s))
  {
    if s != [] {
      var init := s[..|s| - 1];
      var x := s[|s| - 1];
      var d := Dedup(init);
      DedupSpec(init);
      assert s == init + [x];
      if x.title !in TitlesOf(d) {
        TitlesOfAppend(d, x);
        forall i | 0 <= i < |d| ensures d[i].title != x.title {
          TitleIn(d, i);
        }
      }
    }
  }

  /**
   * The position of the first record of `s` whose title is `t`, or `|s|`
   * when no record has that title.
   */
  function FirstIndex(s: seq<Book>, t: string): (p: nat)
    ensures p <= |s|
    ensures p < |s| <==> t in TitlesOf(s)
    ensures p < |s| ==> s[p].title == t
    ensures forall q :: 0 <= q < p ==> s[q].title != t
  {
    if s == [] then 0
    else
      var init := s[..|s| - 1];
      var p := FirstIndex(init, t);
      assert forall q :: 0 <= q < |init| ==> init[q] == s[q];
      if p < |init| then p
      else if s[|s| - 1].title == t then |s| - 1
      else |s|
  }

  /**
   * First seen wins: every kept record is the first record of `s` carrying
   * its title.
   */
  lemma {:induction false} DedupKeepsFirstOccurrence(s: seq<Book>)
    ensures forall i :: 0 <= i < |Dedup(s)| ==>
      Dedup(s)[i].title in TitlesOf(s) && Dedup(s)[i] == s[FirstIndex(s, Dedup(s)[i].title)]
  {
    if s != [] {
      var init := s[..|s| - 1];
      var x := s[|s| - 1];
      var d := Dedup(init);
      var r := Dedup(s);
      DedupKeepsFirstOccurrence(init);
      forall i | 0 <= i < |r|
        ensures r[i].title in TitlesOf(s) && r[i] == s[FirstIndex(s, r[i].title)]
      {
        if i < |d| {
          assert r[i] == d[i];
          assert s[FirstIndex(init, d[i].title)] == init[FirstIndex(init, d[i].title)];
        } else {
          DedupSpec(init);
          assert r == d + [x] && r[i] == x;
          assert FirstIndex(s, x.title) == |init|;
        }
      }
    }
  }

  /**
   * In first-seen order: kept records appear in the order of the first
   * occurrences of their titles. With `DedupSpec` and
   * `DedupKeepsFirstOccurrence` this determines `Dedup(s)` completely.
   */
  lemma {:induction false} DedupFirstSeenOrder(s: seq<Book>)
    ensures forall i, j :: 0 <= i < j < |Dedup(s)| ==>
      FirstIndex(s, Dedup(s)[i].title) < FirstIndex(s, Dedup(s)[j].title)
  {
    if s != [] {
      var init := s[..|s| - 1];
      var x := s[|s| - 1];
      var d := Dedup(init);
      DedupFirstSeenOrder(init);
      DedupKeepsFirstOccurrence(init);
      forall i | 0 <= i < |d|
        ensures FirstIndex(s, d[i].title) == FirstIndex(init, d[i].title) < |init|
      {
      }
      if x.title !in TitlesOf(d) {
        DedupSpec(init);
        assert FirstIndex(s, x.title) == |init|;
      }
    }
  }

  /**
   * A title first seen before the title of kept record `i` was kept before
   * it: at position `p`.
   */
  lemma DedupHasNoGaps(s: seq<Book>, i: nat, t: string) returns (p: nat)
    requires i < |Dedup(s)| && t in TitlesOf(s)
    requires FirstIndex(s, t) < FirstIndex(s, Dedup(s)[i].title)
    ensures p < i && Dedup(s)[p].title == t
  {
    var d := Dedup(s);
    DedupSpec(s);
    DedupFirstSeenOrder(s);
    p := FirstIndex(d, t);
    assert FirstIndex(s, d[p].title) < FirstIndex(s, d[i].title);
  }

  /**
   * The first `m` records kept by `Dedup(s)` are first occurrences, in
   * first-seen order, with no earlier-seen title left out.
   */
  lemma DedupPrefixKeepsFirstSeen(s: seq<Book>, m: nat)
    requires m <= |Dedup(s)|
    ensures var r := Dedup(s)[..m];
      && (forall i :: 0 <= i < |r| ==>
            r[i].title in TitlesOf(s) && r[i] == s[FirstIndex(s, r[i].title)])
      && (forall i, j :: 0 <= i < j < |r| ==>
            FirstIndex(s, r[i].title) < FirstIndex(s, r[j].title))
      && (forall i, t :: 0 <= i < |r| && t in TitlesOf(s) && FirstIndex(s, t) < FirstIndex(s, r[i].title) ==>
            t in TitlesOf(r))
  {
    var d := Dedup(s);
    var r := d[..m];
    DedupKeepsFirstOccurrence(s);
    DedupFirstSeenOrder(s);
    forall i | 0 <= i < |r|
      ensures r[i].title in TitlesOf(s) && r[i] == s[FirstIndex(s, r[i].title)]
    {
      assert r[i] == d[i];
    }
    forall i, t | 0 <= i < |r| && t in TitlesOf(s) && FirstIndex(s, t) < FirstIndex(s, r[i].title)
      ensures t in TitlesOf(r)
    {
      assert r[i] == d[i];
      var p := DedupHasNoGaps(s, i, t);
      assert r[p] == d[p];
      TitleIn(r, p);
    }
  }

  /** Deduplicating a longer list only appends to the deduplication of its prefix. */
  lemma {:induction false} DedupPrefix(s: seq<Book>, t: seq<Book>)
    ensures |Dedup(s)| <= |Dedup(s + t)|
    ensures Dedup(s + t)[..|Dedup(s)|] == Dedup(s)
  {
    if t != [] {
      var init := t[..|t| - 1];
      DedupPrefix(s, init);
      assert (s + t)[..|s + t| - 1] == s + init;
    } else {
      assert s + t == s;
    }
  }

  /** Deduplicating a list whose titles are already distinct changes nothing. */
  lemma {:induction false} DedupOfUnique(s: seq<Book>)
    requires UniqueTitles(s)
    ensures Dedup(s) == s
  {
    if s != [] {
      var init := s[..|s| - 1];
      var x := s[|s| - 1];
      assert UniqueTitles(init) by {
        forall i, j | 0 <= i < j < |init| ensures init[i].title != init[j].title {
          assert init[i] == s[i] && init[j] == s[j];
        }
      }
      DedupOfUnique(init);
      assert x.title !in TitlesOf(init) by {
        forall q | 0 <= q < |init| ensures init[q].title != x.title {
          assert init[q] == s[q];
        }
        var p := FirstIndex(init, x.title);
      }
      assert s == init + [x];
    }
  }
}
