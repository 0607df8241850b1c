# News service core, modelled in Dafny

This project models the core of a small Spring Boot news service:

- the request handlers of `NewsController`: `GET /news`, `GET /news/author`, `POST /news`, `GET /welcome`, `GET /stats` and `GET /name`;
- the request counter the handlers share;
- the fixed list of seven sample articles they serve;
- the `News` bean they return.

The model has four modules:

- `Text` (text.dfy): the string operations the handlers use. These are `toLowerCase`, `contains` and `equalsIgnoreCase`, with case folding on ASCII.
- `Model` (news.dfy): the `News` class with its fields, constructor, getters, setters and `toString`. It also holds the `Article` value a `News` object holds at one moment, and a reader that parses `toString`'s text back into an article.
- `Listing` (listing.dfy): the list logic. `Select` is the articles whose author passes a test, in their original order. `Limit` is the cut to a limit. The module also proves lemmas about both.
- `Controller` (controller.dfy): the sample list and the response records. The `NewsController` class holds the request counter and has one method per handler. `Collect` is the filtering loop the handlers share. The module also holds lemmas about listings and worked examples from the service's testing guide.

Each handler method except `GetStats` bumps the counter and returns the new value as the request id; `GetStats` only reads the counter, and the `AppName` function does not touch it. The contracts of `GetNews` and `GetNewsByAuthor` tie the response to a specification function of the served list:

- `ListArticles` for `GET /news`;
- `ArticlesBy` for `GET /news/author`.

Those functions are proved against the reference definition `Select`. The proofs cover:

- order is kept (the result is a subsequence of the list);
- soundness and completeness of the filter, with each article kept as often as it occurs;
- uniqueness: any order-keeping sublist with the same members is the result;
- the limit rule, including that a limit of 0 or below cuts nothing.

The code matches authors by case-insensitive substring, so `/news?author=john` returns John Smith's and Sarah Johnson's articles; `ListJohnExample` proves it.

## Model

| member | source | states |
|---|---|---|
| Text.FoldChar | backend/src/main/java/com/example/demo/controller/NewsController.java:92 | the result is never an upper-case ASCII letter; an upper-case letter maps to the lower-case letter at the same alphabet position; any other character is unchanged |
| Text.Lower | backend/src/main/java/com/example/demo/controller/NewsController.java:92 | toLowerCase keeps the length, folds each character on its own, and leaves no upper-case letter |
| Text.LowerIdempotent | backend/src/main/java/com/example/demo/controller/NewsController.java:92 | folding twice is the same as folding once; a string with no upper-case letter is unchanged |
| Text.Contains | backend/src/main/java/com/example/demo/controller/NewsController.java:92 | contains holds exactly when `sub` occurs at some index of `text` |
| Text.ContainsFirstChar | backend/src/main/java/com/example/demo/controller/NewsController.java:92 | a text that contains a non-empty string holds that string's first character |
| Text.ContainsTrivial | backend/src/main/java/com/example/demo/controller/NewsController.java:92 | every text contains itself and the empty string |
| Text.EqualsIgnoreCase | backend/src/main/java/com/example/demo/controller/NewsController.java:202 | equalsIgnoreCase holds exactly when the lengths agree and every pair of characters folds to the same character |
| Text.EqualsIgnoreCaseEquivalence | backend/src/main/java/com/example/demo/controller/NewsController.java:202 | equalsIgnoreCase is reflexive, symmetric and transitive |
| Text.EqualsIgnoreCaseContains | backend/src/main/java/com/example/demo/controller/NewsController.java:202 | two names equal ignoring case also pass the substring test on folded text |
| Model.News.constructor | backend/src/main/java/com/example/demo/model/News.java:13-17 | the new object holds the three arguments as given |
| Model.News.GetAuthor | backend/src/main/java/com/example/demo/model/News.java:20-22 | returns the current author field |
| Model.News.SetAuthor | backend/src/main/java/com/example/demo/model/News.java:24-26 | the author becomes the argument; title and description do not change |
| Model.News.GetTitle | backend/src/main/java/com/example/demo/model/News.java:28-30 | returns the current title field |
| Model.News.SetTitle | backend/src/main/java/com/example/demo/model/News.java:32-34 | the title becomes the argument; author and description do not change |
| Model.News.GetDescription | backend/src/main/java/com/example/demo/model/News.java:36-38 | returns the current description field |
| Model.News.SetDescription | backend/src/main/java/com/example/demo/model/News.java:40-42 | the description becomes the argument; author and title do not change |
| Model.Render | backend/src/main/java/com/example/demo/model/News.java:47-51 | the text toString builds: it starts with `News{author='`, the author follows right after, it ends with `'}`, and its length is that of the labels plus the three fields |
| Model.News.ToString | backend/src/main/java/com/example/demo/model/News.java:46-52 | the text is the rendering of the current field values, whatever they hold; when no field holds an apostrophe, parsing it gives back the object's current value |
| Model.QuoteIndex | backend/src/main/java/com/example/demo/model/News.java:48 | finds the apostrophe that closes a field: it is the first one, and no apostrophe comes before it |
| Model.ParseRenderedRoundTrip | backend/src/main/java/com/example/demo/model/News.java:46-52 | for fields free of apostrophes, parsing the rendered text gives back the same article |
| Model.RenderNotInjective | backend/src/main/java/com/example/demo/model/News.java:46-52 | two different articles render to the same text when a field holds the delimiter `', title='` |
| Listing.Matches | backend/src/main/java/com/example/demo/controller/NewsController.java:92 | the author test of both handlers: an empty substring filter passes every article; a passing substring filter is no longer than the author; an exact match has the author's length |
| Listing.Select | backend/src/main/java/com/example/demo/controller/NewsController.java:89-97 | the selection is no longer than its input and holds exactly the input's articles that pass the test |
| Listing.SelectMultiset | backend/src/main/java/com/example/demo/controller/NewsController.java:90-95 | the selection holds each passing article exactly as often as the input does, and no other article |
| Listing.SelectEmpty | backend/src/main/java/com/example/demo/controller/NewsController.java:200-208 | nothing is selected exactly when no article passes the test |
| Listing.SelectKeepsAll | backend/src/main/java/com/example/demo/controller/NewsController.java:89-97 | when every article passes the test, the selection is the whole list |
| Listing.SelectPrefix | backend/src/main/java/com/example/demo/controller/NewsController.java:89-97 | when exactly the first k articles pass the test, the selection is those k articles |
| Listing.SelectIsSubsequence | backend/src/main/java/com/example/demo/controller/NewsController.java:91-94 | the selection keeps the articles in their original order |
| Listing.SubsequenceDistinct | backend/src/main/java/com/example/demo/controller/NewsController.java:91-94 | a sublist of a list without repetitions has no repetitions |
| Listing.SelectUnique | backend/src/main/java/com/example/demo/controller/NewsController.java:91-94 | in a list without repetitions, any order-keeping sublist that holds exactly the passing articles is the selection |
| Listing.Limit | backend/src/main/java/com/example/demo/controller/NewsController.java:100-102 | the result is the first `limit` articles when 0 < limit < the list's size, and the whole list otherwise |
| Controller.AppName | backend/src/main/java/com/example/demo/controller/NewsController.java:53-56 | GET /name returns the application name between `<h3>` tags |
| Controller.ArticleByJohnSmith | backend/src/main/java/com/example/demo/controller/NewsController.java:262-266 | the first sample article is by John Smith |
| Controller.ArticleBySarahJohnson | backend/src/main/java/com/example/demo/controller/NewsController.java:268-272 | the second sample article is by Sarah Johnson |
| Controller.ArticleByMikeDavis | backend/src/main/java/com/example/demo/controller/NewsController.java:274-278 | the third sample article is by Mike Davis |
| Controller.ArticleByEmilyChen | backend/src/main/java/com/example/demo/controller/NewsController.java:280-284 | the fourth sample article is by Emily Chen |
| Controller.ArticleByRobertWilson | backend/src/main/java/com/example/demo/controller/NewsController.java:286-290 | the fifth sample article is by Robert Wilson |
| Controller.ArticleByLisaBrown | backend/src/main/java/com/example/demo/controller/NewsController.java:292-296 | the sixth sample article is by Lisa Brown |
| Controller.ArticleByDavidTaylor | backend/src/main/java/com/example/demo/controller/NewsController.java:298-302 | the seventh sample article is by David Taylor |
| Controller.GetAllNewsList | backend/src/main/java/com/example/demo/controller/NewsController.java:258-305 | getAllNewsList returns seven articles by the seven sample authors, in list order |
| Controller.SeedListDistinct | backend/src/main/java/com/example/demo/controller/NewsController.java:258-305 | no two sample authors are equal ignoring case, so no article occurs twice in the list |
| Controller.FilterApplies | backend/src/main/java/com/example/demo/controller/NewsController.java:89 | the filter applies when it is given and not empty; a missing or empty filter does not apply |
| Controller.AuthorFiltered | backend/src/main/java/com/example/demo/controller/NewsController.java:88-97 | with a non-null, non-empty filter, the list before the limit holds exactly the articles whose folded author contains the folded filter, in order and each as often as in the list; otherwise it is the whole list |
| Controller.ListArticles | backend/src/main/java/com/example/demo/controller/NewsController.java:86-102 | the articles GET /news returns: an order-keeping sublist of the served list in which every article passes the filter; its length follows the limit rule, and it is a prefix of the filtered list |
| Controller.ArticlesBy | backend/src/main/java/com/example/demo/controller/NewsController.java:197-205 | the articles GET /news/author returns: an order-keeping sublist that holds exactly the articles whose author equals the name ignoring case, each as often as in the list; it is empty exactly when no author matches |
| Controller.Collect | backend/src/main/java/com/example/demo/controller/NewsController.java:90-95 | the loop that appends every passing article to a fresh list ends with the selection `Select` |
| Controller.NewsController.constructor | backend/src/main/java/com/example/demo/controller/NewsController.java:38 | a new controller serves the sample list, and its counter starts at 0 |
| Controller.NewsController.NextRequestId | backend/src/main/java/com/example/demo/controller/NewsController.java:107 | incrementAndGet raises the counter by one and returns the new value |
| Controller.NewsController.GetNews | backend/src/main/java/com/example/demo/controller/NewsController.java:76-112 | status "ok"; total is the number of returned articles; requestId is the new counter value, one more than before; the articles are `ListArticles` of the served list |
| Controller.NewsController.Welcome | backend/src/main/java/com/example/demo/controller/NewsController.java:131-146 | echoes the category with status "ok"; requestId is the new counter value, one more than before |
| Controller.NewsController.GetStats | backend/src/main/java/com/example/demo/controller/NewsController.java:159-169 | reports the current counter, status "running" and the application name, and changes nothing |
| Controller.NewsController.GetNewsByAuthor | backend/src/main/java/com/example/demo/controller/NewsController.java:190-216 | the articles are `ArticlesBy` of the served list; status "no_results" exactly when there are none, otherwise "ok"; echoes the searched name; total is the count; requestId is the new counter value |
| Controller.NewsController.AddNews | backend/src/main/java/com/example/demo/controller/NewsController.java:234-243 | status "received"; the submitted article is echoed as is; requestId is the new counter value; nothing else changes |
| Controller.SubmitThenList | backend/src/main/java/com/example/demo/controller/NewsController.java:234-243 | after POST /news, GET /news returns what it would have returned without the submission, so a new author never shows up; the two request ids increase |
| Controller.SuccessiveRequests | backend/src/main/java/com/example/demo/controller/NewsController.java:159-169 | ids of successive requests strictly increase; /stats reports the last id handed out and does not move the counter |
| Controller.NoFilterKeepsAll | backend/src/main/java/com/example/demo/controller/NewsController.java:89-102 | a missing or empty filter keeps the whole list; a limit of 0 or below, or one at least the list's size, keeps it too |
| Controller.FilterComplete | backend/src/main/java/com/example/demo/controller/NewsController.java:89-97 | every article whose folded author contains the folded filter is listed before the limit, and also after it when the limit cuts nothing |
| Controller.ArticlesByIsExact | backend/src/main/java/com/example/demo/controller/NewsController.java:199-205 | on the sample list, any order-keeping sublist holding exactly the matching articles is the GET /news/author result, and that result has at most one article |
| Controller.ExactMatchesAreListed | backend/src/main/java/com/example/demo/controller/NewsController.java:202 | whatever GET /news/author finds for a name, GET /news with that name as filter and no limit also finds |
| Controller.NoJohnWithoutJ | backend/src/main/java/com/example/demo/controller/NewsController.java:92 | an author with no j or J never contains "john" after folding |
| Controller.SeedAuthorsWithoutJ | backend/src/main/java/com/example/demo/controller/NewsController.java:274-302 | the last five sample authors hold no j or J |
| Controller.JohnMatches | backend/src/main/java/com/example/demo/controller/NewsController.java:262-272 | John Smith and Sarah Johnson both pass the filter "john" |
| Controller.JohnMisses | backend/src/main/java/com/example/demo/controller/NewsController.java:274-302 | no other sample author passes the filter "john" |
| Controller.ListJohnExample | backend/src/main/java/com/example/demo/controller/NewsController.java:69 | GET /news?author=john returns the articles of John Smith and Sarah Johnson, in that order |
| Controller.ArticlesByJohnSmithExample | backend/src/main/java/com/example/demo/controller/NewsController.java:179 | GET /news/author?name=John Smith returns John Smith's one article |
| Controller.ArticlesByNonExistentExample | backend/src/main/java/com/example/demo/controller/NewsController.java:331 | GET /news/author?name=NonExistent returns no article |
| Controller.SubmittedExampleNotListed | backend/src/main/java/com/example/demo/controller/NewsController.java:225-229 | any article by Jane Doe, the author of the example submission, whatever its title and description, is in no listing of the sample list |

## Left out

- HTTP and Spring binding are not modelled: routing, JSON conversion by Jackson, and the order of `LinkedHashMap` entries. Parameter defaults (`limit` 10, `name` "Guest", `category` "general") and the error for a missing required `name` are also left out. The handlers take their parameters already bound; a missing `author` filter is `None`.
- The `timestamp` and `serverTime` entries and the welcome `message` are not modelled. They depend on the clock and on Java's date formatting. `Welcome` takes `name` only because the message would use it.
- `AtomicLong` is modelled as an unbounded `nat` updated by one thread at a time. The model does not cover concurrent requests or 64-bit wrap-around.
- The `System.out.println` in `addNews` is output only and is left out.
- Case folding is ASCII only; non-ASCII letters are left as they are. Java's `toLowerCase` (NewsController.java line 92) folds with the default locale. On ASCII text it agrees with the model except under a Turkish or Azerbaijani locale, where `I` lowers to a dotless `ı`: there `/news?author=EMILY` finds nothing in Java, while the model finds Emily Chen's article. `equalsIgnoreCase` (line 202) compares character by character, independently of the locale, and agrees with the model on ASCII text.
- `NewsController.getAllNewsList` builds a fresh list of fresh `News` objects on every request. The model builds the list once, in the constructor, and keeps it as a constant field. The list is the same every time and nothing modifies it, so the handlers see the same values.
- The handlers list `Article` values instead of `News` references. Nothing in the core changes a listed object, so object identity plays no part.
- The default constructor of `News` and null fields are not modelled. Every string in the model is present.
- `News.toString` is modelled exactly on the text it builds. Parsing it back is a reference definition for the proofs; the source has no parser. `ParseRendered` reads back only apostrophe-free fields; a field holding a delimiter such as `', title='` can make two articles print alike (`RenderNotInjective`).
- Controller.ArticleByJohnSmith: states only the author of its sample article. The body holds the exact title and description, but the handlers test only the author, and long literals in the contract would make every proof about the list too expensive.
- Controller.ArticleBySarahJohnson: states only the author of its sample article. The body holds the exact title and description, but the handlers test only the author, and long literals in the contract would make every proof about the list too expensive.
- Controller.ArticleByMikeDavis: states only the author of its sample article. The body holds the exact title and description, but the handlers test only the author, and long literals in the contract would make every proof about the list too expensive.
- Controller.ArticleByEmilyChen: states only the author of its sample article. The body holds the exact title and description, but the handlers test only the author, and long literals in the contract would make every proof about the list too expensive.
- Controller.ArticleByRobertWilson: states only the author of its sample article. The body holds the exact title and description, but the handlers test only the author, and long literals in the contract would make every proof about the list too expensive.
- Controller.ArticleByLisaBrown: states only the author of its sample article. The body holds the exact title and description, but the handlers test only the author, and long literals in the contract would make every proof about the list too expensive.
- Controller.ArticleByDavidTaylor: states only the author of its sample article. The body holds the exact title and description, but the handlers test only the author, and long literals in the contract would make every proof about the list too expensive.
- Controller.GetAllNewsList: states only the authors and their order, for the same reason.
- The Angular UI that calls the service is not part of this model.
