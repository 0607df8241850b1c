/** NewsController: the request handlers of the news service over its fixed
    list of seven articles, and the request counter they share. */
module Controller {
  import opened Text
  import opened Model
  import opened Listing

  /** The name GET /stats reports. */
  const ApplicationName := "News Web App"

  /** GET /name: the application name as an HTML heading, whatever came before. */
  function AppName(): (r: string)
    ensures r == "<h3>" + ApplicationName + "</h3>"
  {
    "<h3>News Web App</h3>"
  }

  /** The authors of the seven sample articles, in list order. */
  const SeedAuthors: seq<string> :=
    ["John Smith", "Sarah Johnson", "Mike Davis", "Emily Chen", "Robert Wilson", "Lisa Brown", "David Taylor"]

  /** `s` is the sample list: seven articles by the sample authors, in order. */
  predicate IsSeedList(s: seq<Article>) {
    |s| == |SeedAuthors| && forall i :: 0 <= i < |s| ==> s[i].author == SeedAuthors[i]
  }

  /* The seven sample articles, one method each (getAllNewsList builds each with
     the News constructor). Only the author is promised to callers: it is the only
     field the handlers look at, and the handlers return the articles as built. */

  method ArticleByJohnSmith() returns (news: Article)
    ensures news.author == "John Smith"
  {
    news := Article("John Smith",
      "Tech Stocks Rise as Market Shows Optimism",
      "Technology stocks experienced significant gains today as investors show renewed confidence in the sector.");
  }

  method ArticleBySarahJohnson() returns (news: Article)
    ensures news.author == "Sarah Johnson"
  {
    news := Article("Sarah Johnson",
      "Global Economic Outlook Improves",
      "Economists predict stronger growth for the coming quarter based on recent economic indicators.");
  }

  method ArticleByMikeDavis() returns (news: Article)
    ensures news.author == "Mike Davis"
  {
    news := Article("Mike Davis",
      "Renewable Energy Investments Surge",
      "Clean energy projects receive record funding as companies shift towards sustainable practices.");
  }

  method ArticleByEmilyChen() returns (news: Article)
    ensures news.author == "Emily Chen"
  {
    news := Article("Emily Chen",
      "Cryptocurrency Market Stabilizes",
      "Digital currencies show signs of stability after weeks of volatility in the market.");
  }

  method ArticleByRobertWilson() returns (news: Article)
    ensures news.author == "Robert Wilson"
  {
    news := Article("Robert Wilson",
      "Healthcare Innovation Breakthrough",
      "Medical researchers announce promising results in new treatment methodologies.");
  }

  method ArticleByLisaBrown() returns (news: Article)
    ensures news.author == "Lisa Brown"
  {
    news := Article("Lisa Brown",
      "E-commerce Growth Continues Strong",
      "Online retail sales maintain upward trend as consumer behavior shifts permanently.");
  }

  method ArticleByDavidTaylor() returns (news: Article)
    ensures news.author == "David Taylor"
  {
    news := Article("David Taylor",
      "Manufacturing Sector Shows Recovery",
      "Industrial production increases for the third consecutive month, signaling economic recovery.");
  }

  /** getAllNewsList: the seven sample articles, in this order. */
  method GetAllNewsList() returns (newsList: seq<Article>)
    ensures IsSeedList(newsList)
  {
    newsList := [];
    var news := ArticleByJohnSmith();
    newsList := newsList + [news];
    news := ArticleBySarahJohnson();
    newsList := newsList + [news];
    news := ArticleByMikeDavis();
    newsList := newsList + [news];
    news := ArticleByEmilyChen();
    newsList := newsList + [news];
    news := ArticleByRobertWilson();
    newsList := newsList + [news];
    news := ArticleByLisaBrown();
    newsList := newsList + [news];
    news := ArticleByDavidTaylor();
    newsList := newsList + [news];
  }

  /** No two sample authors are the same name, even ignoring case; so the sample
      articles are all different. */
  lemma SeedListDistinct(s: seq<Article>)
    requires IsSeedList(s)
    ensures forall i, j :: 0 <= i < j < |s| ==> !EqualsIgnoreCase(s[i].author, s[j].author)
    ensures Distinct(s)
  {
    forall i, j | 0 <= i < j < |s| ensures !EqualsIgnoreCase(s[i].author, s[j].author) {
      var a, b := SeedAuthors[i], SeedAuthors[j];
      if |a| == |b| {
        assert FoldChar(a[0]) != FoldChar(b[0]);
      }
    }
  }

  /** The JSON envelope of GET /news (the timestamp is left out). */
  datatype NewsResponse = NewsResponse(status: string, total: nat, requestId: nat, articles: seq<Article>)

  /** The JSON envelope of GET /welcome (the message and timestamps are left out). */
  datatype WelcomeResponse = WelcomeResponse(category: string, requestId: nat, status: string)

  /** The JSON envelope of GET /stats (the server time is left out). */
  datatype StatsResponse = StatsResponse(totalRequests: nat, status: string, applicationName: string)

  /** The JSON envelope of GET /news/author (the timestamp is left out). */
  datatype AuthorResponse =
    AuthorResponse(status: string, searchedAuthor: string, total: nat, requestId: nat, articles: seq<Article>)

  /** The JSON envelope of POST /news (the timestamp is left out). */
  datatype ReceivedResponse = ReceivedResponse(status: string, receivedArticle: Article, requestId: nat)

  /** The author filter of GET /news is applied only when it is given and not empty. */
  predicate FilterApplies(authorFilter: Option<string>): (r: bool)
    ensures authorFilter.None? ==> !r
    ensures authorFilter == Some([]) ==> !r
    ensures authorFilter.Some? && |authorFilter.value| > 0 ==> r
  {
    authorFilter.Some? && authorFilter.value != []
  }

  /** The list GET /news holds before the limit is applied: the articles of
      `all` whose folded author contains the folded filter, in order and each as
      often as in `all`, or all of them when no filter applies. */
  function AuthorFiltered(all: seq<Article>, authorFilter: Option<string>): (r: seq<Article>)
    ensures IsSubsequence(r, all)
    ensures forall a :: a in r <==> a in all && (FilterApplies(authorFilter) ==> Matches(a, AuthorContains(authorFilter.value)))
    ensures forall a :: multiset(r)[a] == if !FilterApplies(authorFilter) || Matches(a, AuthorContains(authorFilter.value)) then multiset(all)[a] else 0
  {
    if FilterApplies(authorFilter) then
      SelectIsSubsequence(all, AuthorContains(authorFilter.value));
      SelectMultiset(all, AuthorContains(authorFilter.value));
      Select(all, AuthorContains(authorFilter.value))
    else
      SubsequenceReflexive(all);
      all
  }

  /** The articles GET /news returns: the filtered list, cut to `limit` only when
      0 < limit < its length. */
  function ListArticles(all: seq<Article>, authorFilter: Option<string>, limit: int): (r: seq<Article>)
    ensures IsSubsequence(r, all)
    ensures forall a :: a in r ==> a in all && (FilterApplies(authorFilter) ==> Matches(a, AuthorContains(authorFilter.value)))
    ensures |r| == if 0 < limit < |AuthorFiltered(all, authorFilter)| then limit else |AuthorFiltered(all, authorFilter)|
    ensures r == AuthorFiltered(all, authorFilter)[..|r|]
  {
    var filtered := AuthorFiltered(all, authorFilter);
    var r := Limit(filtered, limit);
    SubsequencePrefix(filtered, all, |r|);
    assert forall a :: a in r ==> a in filtered;
    r
  }

  /** The articles GET /news/author returns: those of `all` whose author is
      `name` ignoring case, in order and each as often as in `all`; none exactly
      when no author is. */
  function ArticlesBy(all: seq<Article>, name: string): (r: seq<Article>)
    ensures IsSubsequence(r, all)
    ensures forall a :: a in r <==> a in all && EqualsIgnoreCase(a.author, name)
    ensures r == [] <==> forall a :: a in all ==> !EqualsIgnoreCase(a.author, name)
    ensures forall a :: multiset(r)[a] == if EqualsIgnoreCase(a.author, name) then multiset(all)[a] else 0
  {
    SelectIsSubsequence(all, AuthorEquals(name));
    SelectMultiset(all, AuthorEquals(name));
    SelectEmpty(all, AuthorEquals(name));
    Select(all, AuthorEquals(name))
  }

  /** The loop shared by GET /news and GET /news/author: walk the list and append
      every article that passes the test to a fresh list. */
  method Collect(list: seq<Article>, c: Criterion) returns (filtered: seq<Article>)
    ensures filtered == Select(list, c)
  {
    filtered := [];
    for i := 0 to |list|
      invariant filtered == Select(list[..i], c)
    {
      SelectStep(list, c, i);
      if Matches(list[i], c) {
        filtered := filtered + [list[i]];
      }
    }
    assert list[..|list|] == list;
  }

  /** The controller object: the list of sample articles it serves, which
      nothing changes, and the request counter, its one piece of mutable state. */
  class NewsController {
    const allNews: seq<Article>
    var requestCounter: nat

    /** The served list is the sample list. */
    ghost predicate Valid() {
      IsSeedList(allNews)
    }

    /** A new controller serves the sample list and has served no request. */
    constructor ()
      ensures Valid()
      ensures requestCounter == 0
    {
      var newsList := GetAllNewsList();
      allNews := newsList;
      requestCounter := 0;
    }

    /** AtomicLong.incrementAndGet: bump the counter and return its new value. */
    method NextRequestId() returns (id: nat)
      modifies this
      ensures requestCounter == old(requestCounter) + 1
      ensures id == requestCounter
    {
      requestCounter := requestCounter + 1;
      id := requestCounter;
    }

    /** GET /news: the sample list, filtered by author substring when a non-empty
        filter is given, then cut to `limit` when 0 < limit < its length. */
    method GetNews(authorFilter: Option<string>, limit: int) returns (r: NewsResponse)
      modifies this
      ensures requestCounter == old(requestCounter) + 1
      ensures r.requestId == requestCounter
      ensures r.status == "ok"
      ensures r.total == |r.articles|
      ensures r.articles == ListArticles(allNews, authorFilter, limit)
    {
      var newsList := allNews;
      if authorFilter.Some? && authorFilter.value != [] {
        newsList := Collect(newsList, AuthorContains(authorFilter.value));
      }
      if limit > 0 && limit < |newsList| {
        newsList := newsList[..limit];
      }
      var id := NextRequestId();
      r := NewsResponse("ok", |newsList|, id, newsList);
    }

    /** GET /welcome: echoes the category under a fresh request id. */
    method Welcome(name: string, category: string) returns (r: WelcomeResponse)
      modifies this
      ensures requestCounter == old(requestCounter) + 1
      ensures r.requestId == requestCounter
      ensures r.category == category
      ensures r.status == "ok"
    {
      var id := NextRequestId();
      r := WelcomeResponse(category, id, "ok");
    }

    /** GET /stats: reads the counter without changing it. */
    method GetStats() returns (r: StatsResponse)
      ensures r.totalRequests == requestCounter
      ensures r.status == "running"
      ensures r.applicationName == ApplicationName
    {
      r := StatsResponse(requestCounter, "running", ApplicationName);
    }

    /** GET /news/author: the sample articles whose author is `authorName`,
        ignoring case; status "no_results" when there are none. */
    method GetNewsByAuthor(authorName: string) returns (r: AuthorResponse)
      modifies this
      ensures requestCounter == old(requestCounter) + 1
      ensures r.requestId == requestCounter
      ensures r.articles == ArticlesBy(allNews, authorName)
      ensures r.status == (if r.articles == [] then "no_results" else "ok")
      ensures r.searchedAuthor == authorName
      ensures r.total == |r.articles|
    {
      var filteredNews := Collect(allNews, AuthorEquals(authorName));
      var status := if filteredNews == [] then "no_results" else "ok";
      var id := NextRequestId();
      r := AuthorResponse(status, authorName, |filteredNews|, id, filteredNews);
    }

    /** POST /news: echoes the submitted article under a fresh request id and
        stores it nowhere. */
    method AddNews(news: Article) returns (r: ReceivedResponse)
      modifies this
      ensures requestCounter == old(requestCounter) + 1
      ensures r.requestId == requestCounter
      ensures r.status == "received"
      ensures r.receivedArticle == news
    {
      var id := NextRequestId();
      r := ReceivedResponse("received", news, id);
    }
  }

  /** A submission followed by a listing: the submitted article comes back as
      sent, the listing is what it would have been without the submission (so an
      article by someone who is not a sample author never shows up), and the ids
      follow each other. */
  method SubmitThenList(c: NewsController, article: Article, authorFilter: Option<string>, limit: int)
    returns (received: ReceivedResponse, listed: NewsResponse)
    requires c.Valid()
    modifies c
    ensures received.status == "received" && received.receivedArticle == article
    ensures listed.articles == ListArticles(c.allNews, authorFilter, limit)
    ensures article.author !in SeedAuthors ==> article !in listed.articles
    ensures old(c.requestCounter) < received.requestId < listed.requestId == c.requestCounter
  {
    received := c.AddNews(article);
    listed := c.GetNews(authorFilter, limit);
  }

  /** Request ids handed out by successive requests strictly increase, and /stats
      reports the last one, twice, without moving the counter. */
  method SuccessiveRequests(c: NewsController, name: string, category: string, authorName: string)
    returns (ids: seq<nat>, before: StatsResponse, after: StatsResponse)
    modifies c
    ensures |ids| == 3 && ids[0] < ids[1] < ids[2]
    ensures before.totalRequests == old(c.requestCounter) && before.totalRequests < ids[0]
    ensures after.totalRequests == ids[2] == c.requestCounter
  {
    before := c.GetStats();
    var w := c.Welcome(name, category);
    var n := c.GetNews(None, 10);
    var b := c.GetNewsByAuthor(authorName);
    after := c.GetStats();
    var again := c.GetStats();
    assert again == after;
    ids := [w.requestId, n.requestId, b.requestId];
  }

  /** With no filter or an empty one, GET /news starts from the whole list, and
      an empty filter would keep every article anyway. */
  lemma NoFilterKeepsAll(all: seq<Article>, limit: int)
    ensures AuthorFiltered(all, None) == all && AuthorFiltered(all, Some([])) == all
    ensures Select(all, AuthorContains([])) == all
    ensures limit <= 0 || limit >= |all| ==> ListArticles(all, None, limit) == all
  {
    forall a | a in all ensures Matches(a, AuthorContains([])) {
      ContainsTrivial(Lower(a.author));
    }
    SelectKeepsAll(all, AuthorContains([]));
  }

  /** The filter of GET /news is complete: an article whose folded author
      contains the folded, non-empty filter is in the list before the limit is
      applied, and in the result when the limit cuts nothing. */
  lemma FilterComplete(all: seq<Article>, filter: string, limit: int, a: Article)
    requires filter != [] && a in all && Contains(Lower(a.author), Lower(filter))
    requires limit <= 0 || limit >= |all|
    ensures a in AuthorFiltered(all, Some(filter))
    ensures a in ListArticles(all, Some(filter), limit)
  {
  }

  /** GET /news/author returns exactly the sample articles by that author, in
      list order: any order-keeping sublist of the list that holds exactly them
      is the result; and at most one sample article has any given author. */
  lemma ArticlesByIsExact(all: seq<Article>, name: string, r: seq<Article>)
    requires IsSeedList(all)
    requires IsSubsequence(r, all)
    requires forall a :: a in r <==> a in all && EqualsIgnoreCase(a.author, name)
    ensures r == ArticlesBy(all, name)
    ensures |r| <= 1
  {
    SeedListDistinct(all);
    SelectUnique(all, AuthorEquals(name), r);
    if |r| > 1 {
      SubsequenceMembers(r, all);
      assert r[0] in all && r[1] in all;
      var i :| 0 <= i < |all| && all[i] == r[0];
      var j :| 0 <= j < |all| && all[j] == r[1];
      EqualsIgnoreCaseEquivalence(all[i].author, name, all[j].author);
      assert i == j;
      SubsequenceDistinct(r, all);
      assert false;
    }
  }

  /** Whatever GET /news/author finds for a name, GET /news finds too when that
      name is the author filter and no limit cuts the list. */
  lemma ExactMatchesAreListed(all: seq<Article>, name: string, a: Article)
    requires name != [] && a in ArticlesBy(all, name)
    ensures a in ListArticles(all, Some(name), 0)
  {
    EqualsIgnoreCaseContains(a.author, name);
  }

  /** An author with no 'j' or 'J' in it never matches the filter "john". */
  lemma NoJohnWithoutJ(author: string)
    requires 'j' !in author && 'J' !in author
    ensures !Contains(Lower(author), Lower("john"))
  {
    assert Lower("john") == "john";
    if Contains(Lower(author), "john") {
      ContainsFirstChar(Lower(author), "john");
    }
  }

  /** The two sample authors whose folded name holds "john". */
  lemma JohnMatches(all: seq<Article>)
    requires IsSeedList(all)
    ensures Matches(all[0], AuthorContains("john")) && Matches(all[1], AuthorContains("john"))
  {
    assert Lower("john") == "john";
    assert Lower(all[0].author) == "john smith";
    assert OccursAt(Lower(all[0].author), "john", 0);
    assert Lower(all[1].author) == "sarah johnson";
    assert OccursAt(Lower(all[1].author), "john", 6);
  }

  /** Only the first two sample authors have a "j" or "J" in their name. */
  lemma SeedAuthorsWithoutJ()
    ensures forall i :: 2 <= i < |SeedAuthors| ==> 'j' !in SeedAuthors[i] && 'J' !in SeedAuthors[i]
  {
  }

  /** The other five sample authors never match the filter "john". */
  lemma JohnMisses(all: seq<Article>)
    requires IsSeedList(all)
    ensures forall i :: 2 <= i < |all| ==> !Matches(all[i], AuthorContains("john"))
  {
    SeedAuthorsWithoutJ();
    forall i | 2 <= i < |all| ensures !Matches(all[i], AuthorContains("john")) {
      NoJohnWithoutJ(all[i].author);
    }
  }

  /** GET /news?author=john on the sample list: the substring match keeps both
      "John Smith" and "Sarah Johnson". */
  lemma ListJohnExample(all: seq<Article>)
    requires IsSeedList(all)
    ensures ListArticles(all, Some("john"), 10) == all[..2]
  {
    JohnMatches(all);
    JohnMisses(all);
    SelectPrefix(all, AuthorContains("john"), 2);
  }

  /** GET /news/author?name=John Smith on the sample list finds his one article. */
  lemma ArticlesByJohnSmithExample(all: seq<Article>)
    requires IsSeedList(all)
    ensures ArticlesBy(all, "John Smith") == all[..1]
  {
    SeedListDistinct(all);
    assert EqualsIgnoreCase(all[0].author, "John Smith");
    forall i | 1 <= i < |all| ensures !EqualsIgnoreCase(all[i].author, "John Smith") {
      assert !EqualsIgnoreCase(all[i].author, all[0].author);
    }
    SubsequenceReflexive(all);
    SubsequencePrefix(all, all, 1);
    SelectUnique(all, AuthorEquals("John Smith"), all[..1]);
  }

  /** GET /news/author?name=NonExistent on the sample list finds nothing. */
  lemma ArticlesByNonExistentExample(all: seq<Article>)
    requires IsSeedList(all)
    ensures ArticlesBy(all, "NonExistent") == []
  {
  }

  /** The author of the example submission is no sample author, so no article
      of theirs, whatever its title and description, appears in a listing of
      the sample list. */
  lemma SubmittedExampleNotListed(all: seq<Article>, title: string, description: string, authorFilter: Option<string>, limit: int)
    requires IsSeedList(all)
    ensures Article("Jane Doe", title, description) !in ListArticles(all, authorFilter, limit)
  {
    // "Jane Doe" has eight characters, and no sample author has eight.
    assert forall i :: 0 <= i < |all| ==> |all[i].author| != 8;
  }
}
