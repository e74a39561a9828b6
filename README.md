# DUO core in Dafny

A model of the three pieces of logic behind the DUO blog application's web layer:

- **`ArticlePage`**: the pagination window of the article list. An object built either from explicit
  start/current/end values and a list, or from a repository page. Each getter computes its value on
  first access and caches it in a field. 0 (for a number) and null (for the list) mean "not computed yet".
  `current` is the page number plus one. `start` is `max(1, current - 5)`. `end` is
  `min(current + 5, totalPages)`. The articles are the page's content.
- **`ArticleService`**: create, modify and delete articles, each guarded by validation and
  authorship; search by query string; lookup by id; and the list page for a 1-based page number.
- **`CommentService`**: create a comment after a null check, author stamping and validation.

Modules and files:

- `java_int.dfy` (`JavaInt`): Java's 32-bit `int` with its wrap-around `+` and `-`.
- `domain.dfy` (`Domain`): users, articles, comments, and the exceptions as error tags.
- `paging.dfy` (`Paging`): the page request and the returned page of the repository layer.
- `constants.dfy` (`ServiceConstants`): the constants `ArticleService` declares. They sit in a module
  of their own because `ArticlePage` reads one of them and `ArticleService` builds `ArticlePage` objects.
- `repository.dfy` (`Repositories`): the repositories the services call, as a class holding a `map`.
- `article_page.dfy` (`ArticlePages`): the `ArticlePage` class.
- `article_service.dfy` (`ArticleServices`): the `ArticleService` class.
- `comment_service.dfy` (`CommentServices`): the `CommentService` class.

`ArticlePage` is a class with the source's fields. Its getters are methods that `modify` the object.
Each getter is specified by a pure step function on the object's state (`CurrentStep`, `StartStep`,
`EndStep`, `ArticlesStep`, dispatched by `Call`). The properties are proved about those functions:

- No getter call changes what any getter returns afterwards (`CallsDoNotInterfere`).
- In every sequence of getter calls, each call returns what that getter returns on the fresh object
  (`RunIsStable`, by induction on the sequence).

The exception is a computed end of 0, which happens when there are no pages. That 0 collides with the
"not computed" sentinel, so the field keeps saying "not computed" and every call recomputes it. It still
yields 0 each time (`EndStep`, `EmptyPageEndRecomputed`).

The page numbers use Java `int` arithmetic. `page.getNumber() + 1` therefore wraps on the last `int`
value (`LastPageNumberWraps`). `getCurrentPage() + 5` wraps for a current page in MaxInt32−4..MaxInt32. The end
is then negative even when current ≤ totalPages (`EndPageWrapsNearLastInt`). `findsByPageNumber(Integer.MAX_VALUE)`
reaches this case (`LargestPageNumberWrapsEnd`). The window bounds below therefore hold for a current page of at
most MaxInt32−5. `getPageRequest(Integer.MIN_VALUE)` is not refused: `pageNumber - 1`
wraps to the largest page index (`GetPageRequest`, `MostNegativePageNumberWraps`).

The services are classes whose repository is a `Repository` object holding a `map` from id to
entity and an identity counter. `save` replaces the entity stored under the entity's id when that id
is stored. Otherwise it stores the entity under a newly generated id. Its answer may be absent: the
services are verified against that contract, and the in-memory body always answers.

The current session user is a parameter. `setAuthor` on the caller's object is modelled by returning
the stamped entity (`stamped`). Every refusal leaves the repository unchanged.

The refusals of `modify` and `delete` are specified by `ModifyGuard` and `DeleteGuard`. A lemma shows
that a non-owner's `modify` is refused exactly as if the article were missing. Another shows that
`delete` tells the two cases apart (`AuthenticationException` against `ArticleNotFoundException`).

One consequence of the code as written is stated in `Create`'s contract. `create` does not clear a
client-supplied id. A registrable article carrying the id of a stored article therefore replaces that
article, whoever its author was, with the current user as the new author. No ownership check applies.

Two behaviours of the code as written:

- `findsByQueryString` refuses only a null or empty query (`StringUtils.isEmpty`). A blank query
  goes to the search.
- The current page is derived from the returned page's number. An out-of-range page number is not
  refused (the code's own TODO at `ArticleService.java:112`).

## Model

| member | source | states |
|---|---|---|
| `JavaInt.Add` | duo-domain/src/main/java/tdd/duo/dto/ArticlePage.java:41 | Java `int` addition: exact without overflow, reduced by 2^32 above MaxInt32 and raised by 2^32 below MinInt32 |
| `JavaInt.Sub` | duo-domain/src/main/java/tdd/duo/dto/ArticlePage.java:48 | Java `int` subtraction: exact without overflow, raised by 2^32 below MinInt32 and reduced by 2^32 above MaxInt32 |
| `JavaInt.Max` | duo-domain/src/main/java/tdd/duo/dto/ArticlePage.java:48 | `Math.max`: the larger of the two arguments, at least each of them |
| `JavaInt.Min` | duo-domain/src/main/java/tdd/duo/dto/ArticlePage.java:55 | `Math.min`: the smaller of the two arguments, at most each of them |
| `Repositories.Repository.FindOne` | duo-domain/src/main/java/tdd/duo/service/ArticleService.java:67 | the repository lookup answers the stored entity exactly when the id is stored |
| `Repositories.Repository.Save` | duo-domain/src/main/java/tdd/duo/service/ArticleService.java:79 | save stores the entity under its own id if stored, else under a fresh id that is then taken; the answer, when present, is the stored entity |
| `Repositories.Repository.Delete` | duo-domain/src/main/java/tdd/duo/service/ArticleService.java:102 | delete removes exactly that id and nothing else |
| `ArticlePages.CurrentStep` | duo-domain/src/main/java/tdd/duo/dto/ArticlePage.java:39-44 | a non-zero current is returned unchanged; otherwise it is the page number + 1 (≥ 1 for a number in 0..MAX-1) and the field holds the returned value |
| `ArticlePages.StartStep` | duo-domain/src/main/java/tdd/duo/dto/ArticlePage.java:46-51 | a non-zero start is returned unchanged; otherwise it is max(1, current - 5), ≥ 1 (so cached for good), ≤ current when current ≥ 1; only current and start change |
| `ArticlePages.EndStep` | duo-domain/src/main/java/tdd/duo/dto/ArticlePage.java:53-58 | a non-zero end is returned unchanged; otherwise ≤ totalPages, and for current ≤ MaxInt32 − 5 (where Java's `+ 5` does not wrap) it is min(current + 5, totalPages), ≤ current + 5 and ≥ current when current ≤ totalPages; the field holds the answer, so an answer of 0 stays "not computed" |
| `ArticlePages.ArticlesStep` | duo-domain/src/main/java/tdd/duo/dto/ArticlePage.java:29-33 | a present list is returned unchanged; otherwise the page's content is returned and cached |
| `ArticlePages.Run` | duo-domain/src/main/java/tdd/duo/dto/ArticlePage.java:29-58 | the answers of getter calls made one after another, one answer per call |
| `ArticlePages.CallPreservesDefined` | duo-domain/src/main/java/tdd/duo/dto/ArticlePage.java:29-58 | a getter call keeps the page and never makes another getter hit the absent page |
| `ArticlePages.CallsDoNotInterfere` | duo-domain/src/main/java/tdd/duo/dto/ArticlePage.java:29-58 | after any getter call, every getter returns what it would have returned before |
| `ArticlePages.RunIsStable` | duo-domain/src/main/java/tdd/duo/dto/ArticlePage.java:29-58 | in any sequence of getter calls, each call returns what that getter returns on the fresh object |
| `ArticlePages.GetterIdempotent` | duo-domain/src/main/java/tdd/duo/dto/ArticlePage.java:29-58 | calling a getter twice returns the same value |
| `ArticlePages.ExplicitValuesReturnedAsGiven` | duo-domain/src/main/java/tdd/duo/dto/ArticlePage.java:22-27 | non-zero values and a non-null list given to the explicit constructor are returned as given, with no state change |
| `ArticlePages.WindowFromPage` | duo-domain/src/main/java/tdd/duo/dto/ArticlePage.java:39-58 | from a repository page numbered 0..MaxInt32 − 6 (so that Java's `+ 5` does not wrap): current = number + 1, start = max(1, current - 5) in 1..current, end = min(current + 5, totalPages) ≥ current when current ≤ totalPages, and end - start ≤ 10 |
| `ArticlePages.EmptyPageEndRecomputed` | duo-domain/src/main/java/tdd/duo/dto/ArticlePage.java:53-57 | with no pages the end is 0 and its field stays 0 ("not computed") |
| `ArticlePages.LastPageNumberWraps` | duo-domain/src/main/java/tdd/duo/dto/ArticlePage.java:39-50 | on the last int page number, current wraps to the most negative int and start exceeds current |
| `ArticlePages.EndPageWrapsNearLastInt` | duo-domain/src/main/java/tdd/duo/dto/ArticlePage.java:53-57 | for page number MaxInt32 − 1 with MaxInt32 pages, current is MaxInt32 and `current + 5` wraps, so the end is MinInt32 + 4 |
| `ArticlePages.ArticlePage.constructor` | duo-domain/src/main/java/tdd/duo/dto/ArticlePage.java:22-27 | the explicit constructor sets start, current, end and the list, with no page |
| `ArticlePages.ArticlePage.FromPage` | duo-domain/src/main/java/tdd/duo/dto/ArticlePage.java:35-37 | the page constructor keeps the page, with every cached field "not computed" |
| `ArticlePages.ArticlePage.GetArticles` | duo-domain/src/main/java/tdd/duo/dto/ArticlePage.java:29-33 | the new state and answer are those of `ArticlesStep` |
| `ArticlePages.ArticlePage.GetCurrentPage` | duo-domain/src/main/java/tdd/duo/dto/ArticlePage.java:39-44 | the new state and answer are those of `CurrentStep` |
| `ArticlePages.ArticlePage.GetStartPage` | duo-domain/src/main/java/tdd/duo/dto/ArticlePage.java:46-51 | the new state and answer are those of `StartStep` |
| `ArticlePages.ArticlePage.GetEndPage` | duo-domain/src/main/java/tdd/duo/dto/ArticlePage.java:53-58 | the new state and answer are those of `EndStep` |
| `ArticleServices.ModifyGuard` | duo-domain/src/main/java/tdd/duo/service/ArticleService.java:63-77 | modify proceeds iff the payload is registrable and the current user owns the stored article; an invalid payload is refused with the validation message first, a missing article with the invalid-request message |
| `ArticleServices.DeleteGuard` | duo-domain/src/main/java/tdd/duo/service/ArticleService.java:90-100 | delete proceeds iff the id is positive and the current user owns the stored article; the refusal is AuthenticationException iff the article exists with another author, else ArticleNotFoundException |
| `ArticleServices.NonOwnerModifyLooksMissing` | duo-domain/src/main/java/tdd/duo/service/ArticleService.java:70-77 | a non-owner's modify gets the same refusal as a modify of a missing article |
| `ArticleServices.NonOwnerDeleteRevealsExistence` | duo-domain/src/main/java/tdd/duo/service/ArticleService.java:93-100 | a non-owner's delete is refused with AuthenticationException, a delete of a missing article with ArticleNotFoundException |
| `ArticleServices.ModifyAndDeleteAgreeOnOwnership` | duo-domain/src/main/java/tdd/duo/service/ArticleService.java:75-99 | for a valid payload and positive id, modify and delete admit the same users |
| `ArticleServices.GetPageRequest` | duo-domain/src/main/java/tdd/duo/service/ArticleService.java:117-119 | page number n ≥ 1 gives index n - 1, size 5, sorted by id descending; 0 and negatives are refused, except the most negative int, which wraps to the last index |
| `ArticleServices.PageNumberBecomesCurrentPage` | duo-domain/src/main/java/tdd/duo/service/ArticleService.java:113-118 | for n ≥ 1, a page returned for the request of n has current page n |
| `ArticleServices.MostNegativePageNumberWraps` | duo-domain/src/main/java/tdd/duo/service/ArticleService.java:117-119 | the most negative page number is accepted and yields a negative current page |
| `ArticleServices.LargestPageNumberWrapsEnd` | duo-domain/src/main/java/tdd/duo/service/ArticleService.java:113-118 | page number MaxInt32 is accepted, asks for index MaxInt32 − 1, and with MaxInt32 pages its window ends on MinInt32 + 4 |
| `ArticleServices.ArticleService.constructor` | duo-domain/src/main/java/tdd/duo/service/ArticleService.java:31-35 | the service uses the given repository and collaborators |
| `ArticleServices.ArticleService.Create` | duo-domain/src/main/java/tdd/duo/service/ArticleService.java:37-47 | the author becomes the current user; a registrable article is saved and owned by that user (a new one under a fresh id, one with a stored id replaces it); otherwise ArticleCreationException with the validation message and no change |
| `ArticleServices.ArticleService.FindsByQueryString` | duo-domain/src/main/java/tdd/duo/service/ArticleService.java:49-55 | null for a null or empty query, else exactly the repository's search result |
| `ArticleServices.ArticleService.Modify` | duo-domain/src/main/java/tdd/duo/service/ArticleService.java:57-84 | the author becomes the current user; each `ModifyGuard` refusal is raised with no change; otherwise the request is stored under its id, nothing else changes, and the saved entity is returned or the unexpected-error exception raised |
| `ArticleServices.ArticleService.Delete` | duo-domain/src/main/java/tdd/duo/service/ArticleService.java:88-103 | each `DeleteGuard` refusal is raised with no change; otherwise exactly that id is removed |
| `ArticleServices.ArticleService.FindById` | duo-domain/src/main/java/tdd/duo/service/ArticleService.java:105-110 | null for id ≤ 0, else the stored article for that id, or null if none |
| `ArticleServices.ArticleService.FindsByPageNumber` | duo-domain/src/main/java/tdd/duo/service/ArticleService.java:112-115 | a refused page request is IllegalArgumentException; otherwise a fresh ArticlePage built from the repository's page for that request |
| `CommentServices.CommentService.constructor` | duo-domain/src/main/java/tdd/duo/service/CommentService.java:16-20 | the service uses the given repository and validity rule |
| `CommentServices.CommentService.Create` | duo-domain/src/main/java/tdd/duo/service/CommentService.java:22-33 | null is refused with IllegalArgumentException first; the author becomes the current user; a non-registrable comment is refused with no change; otherwise it is saved with that author and the repository's answer returned |

## Left out

- The controller, the test classes and user registration: request routing, model binding and view
  resolution belong to the web framework. The controller's call to a `findAll` that `ArticleService`
  lacks, and the tests' five-argument `ArticlePage` constructor, do not match the service code and are not modelled.
- `SessionService` is not part of this model: the current user is a parameter, always present.
- `Article.isRegistable` and `Comment.canRegistable` are not part of this model. They are functions
  the services are given.
- The repository's search and paged query: functions of the stored articles that the service is given.
  The page a query returns is assumed only where a lemma says so (`PageNumberBecomesCurrentPage`).
- When `save` answers without an entity: the model assumes that it stored the entity anyway.
- The caller's `Article` and `Comment` objects: the model does not capture that their author is set in
  place, that they alias the stored entity, or that the persistence layer writes the generated id into them.
  The stamped values are returned instead.
- `Modify`: the source compares the two author ids with `!=`. If `User.getId()` returns `Long`, that compares
  references outside the small cached range. The model compares the values, so it may admit owners that the source refuses.
- `Delete`: the same `!=` on author ids at `ArticleService.java:99` (a reference comparison if the ids are
  `Long`) is modelled as value comparison.
- `Modify`: a null request id is modelled as IllegalArgumentException (the repository refuses a null
  id). A stored article without an author is modelled as NullPointerException.
- `GetPageRequest`: the refusal of a negative page index comes from the repository layer's `PageRequest`
  constructor (IllegalArgumentException), not from `getPageRequest` itself. The model folds it into `GetPageRequest`.
- `FindById`: the id is a non-null integer. `findById(null)` would fail on unboxing and is not modelled.
- Article ids (Java `Long` in `delete` and `findById`) and user ids are unbounded integers: they are only compared.
- `ArticlePage` getters that would dereference the absent page have that as a precondition (`Defined`)
  rather than an error outcome.
- Concurrency, transactions and timestamps managed by the persistence layer are not modelled.
