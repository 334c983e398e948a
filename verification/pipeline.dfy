/** The page loop (`scrape_forum_pages`) and the final join. One request per
    page number 1..n; the per-page record lists are concatenated in the order
    the requests complete, which the scheduler chooses. Fetching a URL and
    parsing the HTML are abstracted to `fetch`, a function from the page URL
    to the post containers found on it. */
module Pipeline {
  import opened Wrappers
  import opened Decimal
  import opened Posts
  import opened Gathering

  /** `f"{base_url}/{page_num}/"`. */
  function PageUrl(baseUrl: string, page: nat): string {
    baseUrl + "/" + ToDecimal(page) + "/"
  }

  /** The page number a URL addresses under `baseUrl`, if it is a page URL. */
  function PageOfUrl(baseUrl: string, url: string): Option<nat> {
    var n := |baseUrl|;
    if |url| < n + 2 || url[..n + 1] != baseUrl + "/" || url[|url| - 1] != '/' then None
    else
      var middle := url[n + 1..|url| - 1];
      if IsCanonical(middle) then Some(Value(middle)) else None
  }

  /** Every page URL names its page. */
  lemma PageUrlThenPage(baseUrl: string, page: nat)
    ensures PageOfUrl(baseUrl, PageUrl(baseUrl, page)) == Some(page)
  {
    var url := PageUrl(baseUrl, page);
    var n := |baseUrl|;
    assert url[..n + 1] == baseUrl + "/";
    assert url[n + 1..|url| - 1] == ToDecimal(page);
    ValueOfToDecimal(page);
  }

  /** Every URL that names a page is that page's URL. */
  lemma PageThenPageUrl(baseUrl: string, url: string)
    requires PageOfUrl(baseUrl, url).Some?
    ensures PageUrl(baseUrl, PageOfUrl(baseUrl, url).value) == url
  {
    var n := |baseUrl|;
    var middle := url[n + 1..|url| - 1];
    ToDecimalOfValue(middle);
    assert url == url[..n + 1] + middle + [url[|url| - 1]];
  }

  /** Different pages are requested at different URLs. */
  lemma PageUrlInjective(baseUrl: string, p: nat, q: nat)
    requires PageUrl(baseUrl, p) == PageUrl(baseUrl, q)
    ensures p == q
  {
    PageUrlThenPage(baseUrl, p);
    PageUrlThenPage(baseUrl, q);
  }

  /** `range(1, n + 1)`: empty when n is not positive. */
  function PageNumbers(n: int): (pages: seq<nat>)
    ensures |pages| == if n > 0 then n else 0
    ensures forall i :: 0 <= i < |pages| ==> pages[i] == i + 1
  {
    if n <= 0 then [] else PageNumbers(n - 1) + [n]
  }

  /** `order` lists the page numbers 1..n in the order the requests complete:
      each page exactly once, in an order the scheduler chooses. */
  predicate IsCompletionOrder(order: seq<nat>, n: int) {
    multiset(order) == multiset(PageNumbers(n))
  }

  /** Each page number 1..n occurs once in `range(1, n + 1)`, and no other
      number occurs. */
  lemma {:induction false} PageNumbersOnce(n: int, p: nat)
    ensures multiset(PageNumbers(n))[p] == if 1 <= p <= n then 1 else 0
  {
    if n > 0 {
      assert PageNumbers(n) == PageNumbers(n - 1) + [n];
      PageNumbersOnce(n - 1, p);
    }
  }

  /** In completion order every page 1..n is requested, each at its own URL,
      and nothing else is requested. */
  lemma RequestsAreExactlyThePages(baseUrl: string, order: seq<nat>, n: int)
    requires IsCompletionOrder(order, n)
    ensures |order| == if n > 0 then n else 0
    ensures forall k :: 0 <= k < |order| ==> 1 <= order[k] <= n
    ensures forall p :: 1 <= p <= n ==> p in order
    ensures forall j, k :: 0 <= j < k < |order| ==> PageUrl(baseUrl, order[j]) != PageUrl(baseUrl, order[k])
  {
    assert |order| == |multiset(order)| == |multiset(PageNumbers(n))| == |PageNumbers(n)|;
    forall k | 0 <= k < |order| ensures 1 <= order[k] <= n {
      assert order[k] in multiset(order);
      PageNumbersOnce(n, order[k]);
    }
    forall p | 1 <= p <= n ensures p in order {
      PageNumbersOnce(n, p);
      assert p in multiset(order);
    }
    forall j, k | 0 <= j < k < |order| ensures PageUrl(baseUrl, order[j]) != PageUrl(baseUrl, order[k]) {
      var x := order[k];
      if order[j] == x {
        assert order == order[..k] + order[k..];
        assert order[j] in order[..k] && x in order[k..];
        assert multiset(order)[x] == multiset(order[..k])[x] + multiset(order[k..])[x];
        PageNumbersOnce(n, x);
        assert false;
      } else if PageUrl(baseUrl, order[j]) == PageUrl(baseUrl, x) {
        PageUrlInjective(baseUrl, order[j], x);
        assert false;
      }
    }
  }

  /** `scrape_page` for one page: the records of the containers fetched from
      that page's URL. */
  function PageRecordsOf(baseUrl: string, fetch: string -> seq<PostContainer>, page: nat): seq<string> {
    PageRecords(fetch(PageUrl(baseUrl, page)), baseUrl)
  }

  /** The records of every page, as `scrape_page` would return them. */
  function PagesOf(baseUrl: string, fetch: string -> seq<PostContainer>): nat -> seq<string> {
    (page: nat) => PageRecordsOf(baseUrl, fetch, page)
  }

  /** `all_posts` after extending it with the pages of `order`, in that order. */
  function Aggregate(baseUrl: string, fetch: string -> seq<PostContainer>, order: seq<nat>): seq<string> {
    Gather(PagesOf(baseUrl, fetch), order)
  }

  /** The number of post containers on pages 1..n. */
  function TotalPosts(baseUrl: string, fetch: string -> seq<PostContainer>, n: int): nat {
    if n <= 0 then 0 else TotalPosts(baseUrl, fetch, n - 1) + |fetch(PageUrl(baseUrl, n))|
  }

  /** In ascending page order the aggregate has one record per container of
      pages 1..n. */
  lemma {:induction false} AscendingLength(baseUrl: string, fetch: string -> seq<PostContainer>, n: int)
    ensures |Aggregate(baseUrl, fetch, PageNumbers(n))| == TotalPosts(baseUrl, fetch, n)
  {
    if n > 0 {
      var pages := PageNumbers(n);
      assert pages[..|pages| - 1] == PageNumbers(n - 1);
      AscendingLength(baseUrl, fetch, n - 1);
    }
  }

  /** Whatever the completion order, the aggregate has one record per post
      container of pages 1..n, and the same records as in page order. */
  lemma AggregateCount(baseUrl: string, fetch: string -> seq<PostContainer>, order: seq<nat>, n: int)
    requires IsCompletionOrder(order, n)
    ensures multiset(Aggregate(baseUrl, fetch, order)) == multiset(Aggregate(baseUrl, fetch, PageNumbers(n)))
    ensures |Aggregate(baseUrl, fetch, order)| == TotalPosts(baseUrl, fetch, n)
  {
    GatherPermutation(PagesOf(baseUrl, fetch), order, PageNumbers(n));
    AscendingLength(baseUrl, fetch, n);
    assert |Aggregate(baseUrl, fetch, order)| == |multiset(Aggregate(baseUrl, fetch, order))|;
    assert |Aggregate(baseUrl, fetch, PageNumbers(n))| == |multiset(Aggregate(baseUrl, fetch, PageNumbers(n)))|;
  }

  /** The records of the k-th completed page sit together, in document
      order, right after those of the pages completed before it. */
  lemma AggregateContiguous(baseUrl: string, fetch: string -> seq<PostContainer>, order: seq<nat>, k: nat)
    requires k < |order|
    ensures var start := |Aggregate(baseUrl, fetch, order[..k])|;
      var page := PageRecordsOf(baseUrl, fetch, order[k]);
      start + |page| <= |Aggregate(baseUrl, fetch, order)|
      && Aggregate(baseUrl, fetch, order)[start..start + |page|] == page
  {
    GatherContiguous(PagesOf(baseUrl, fetch), order, k);
  }

  /** `scrape_page`: request the page's URL and extract its records. */
  method ScrapePage(baseUrl: string, fetch: string -> seq<PostContainer>, page: nat) returns (details: seq<string>)
    ensures |details| == |fetch(PageUrl(baseUrl, page))|
    ensures details == PageRecordsOf(baseUrl, fetch, page)
  {
    var pageUrl := PageUrl(baseUrl, page);
    var posts := fetch(pageUrl);
    details := ExtractPosts(posts, baseUrl);
  }

  /** `scrape_forum_pages`: one request per page 1..n, each page's records
      appended as its request completes. What the result holds whatever the
      completion order is stated by `AggregateCount` and
      `AggregateContiguous`. */
  method ScrapeForumPages(baseUrl: string, pagesToScrape: int, fetch: string -> seq<PostContainer>, order: seq<nat>)
    returns (allPosts: seq<string>)
    requires IsCompletionOrder(order, pagesToScrape)
    ensures allPosts == Aggregate(baseUrl, fetch, order)
  {
    allPosts := [];
    for i := 0 to |order|
      invariant allPosts == Aggregate(baseUrl, fetch, order[..i])
    {
      var pagePosts := ScrapePage(baseUrl, fetch, order[i]);
      assert order[..i + 1][..i] == order[..i];
      allPosts := allPosts + pagePosts;
    }
    assert order[..|order|] == order;
  }

  const PostSeparator: string := "\n---\n"

  /** `"\n---\n".join(posts)`: "" for no records, the record itself for
      one; longer lists follow from `JoinAppend`. */
  function JoinPosts(posts: seq<string>): (r: string)
    ensures |posts| == 0 ==> r == ""
    ensures |posts| == 1 ==> r == posts[0]
  {
    if |posts| == 0 then ""
    else if |posts| == 1 then posts[0]
    else JoinPosts(posts[..|posts| - 1]) + PostSeparator + posts[|posts| - 1]
  }

  /** The total length of a sequence of strings. */
  function TotalLength(posts: seq<string>): nat {
    if posts == [] then 0 else TotalLength(posts[..|posts| - 1]) + |posts[|posts| - 1]|
  }

  /** The joined text is the records plus one separator between each pair. */
  lemma {:induction false} JoinLength(posts: seq<string>)
    requires |posts| > 0
    ensures |JoinPosts(posts)| == TotalLength(posts) + |PostSeparator| * (|posts| - 1)
  {
    if |posts| > 1 {
      JoinLength(posts[..|posts| - 1]);
    } else {
      assert posts[..0] == [];
    }
  }

  /** Joining two non-empty runs of records is joining each and putting one
      separator between them. */
  lemma {:induction false} JoinAppend(a: seq<string>, b: seq<string>)
    requires |a| > 0 && |b| > 0
    ensures JoinPosts(a + b) == JoinPosts(a) + PostSeparator + JoinPosts(b)
    decreases |b|
  {
    var ab := a + b;
    var last := b[|b| - 1];
    if |b| == 1 {
      assert ab[..|ab| - 1] == a;
    } else {
      var b' := b[..|b| - 1];
      assert ab[..|ab| - 1] == a + b';
      JoinAppend(a, b');
    }
  }
}
