/**
 * Article operations: creation, search, modification and deletion guarded by validation
 * and authorship, lookup by id, and the list page.
 */
module ArticleServices {
  import opened JavaInt
  import opened Domain
  import opened Paging
  import opened ServiceConstants
  import opened Repositories
  import opened ArticlePages

  const UnexpectedErrorMessage: string := "예기치못한 에러발생"

  /** The article stored under `id` exists, has an author, and that author is `user`. */
  predicate OwnedBy(store: map<int, Article>, id: int, user: User) {
    id in store && store[id].author.Some? && store[id].author.value.id == user.id
  }

  /**
   * Why `modify` refuses a request for the article `id` (None: it saves). The checks run
   * in order: payload validity, the id, existence, a stored author, authorship.
   */
  function ModifyGuard(registable: bool, store: map<int, Article>, id: Option<int>, user: User): (r: Option<Error>)
    ensures r.None? <==> registable && id.Some? && OwnedBy(store, id.value, user)
    ensures !registable ==> r == Some(ArticleModification(ValidationExceptionMessage))
    ensures registable && id.Some? && id.value !in store ==> r == Some(ArticleModification(InvalidRequestExceptionMessage))
  {
    if !registable then Some(ArticleModification(ValidationExceptionMessage))
    else if id.None? then Some(IllegalArgument)
    else if id.value !in store then Some(ArticleModification(InvalidRequestExceptionMessage))
    else if store[id.value].author.None? then Some(NullPointer)
    else if store[id.value].author.value.id != user.id then Some(ArticleModification(InvalidRequestExceptionMessage))
    else None
  }

  /** Why `delete` refuses to remove the article `id` (None: it removes it). */
  function DeleteGuard(store: map<int, Article>, id: Option<int>, user: User): (r: Option<Error>)
    ensures r.None? <==> id.Some? && id.value > 0 && OwnedBy(store, id.value, user)
    ensures r == Some(Authentication) <==>
              id.Some? && id.value > 0 && id.value in store && store[id.value].author.Some? &&
              store[id.value].author.value.id != user.id
    ensures r.Some? ==> r.value == ArticleNotFound || r.value == Authentication
  {
    if id.None? || id.value <= 0 then Some(ArticleNotFound)
    else if id.value !in store || store[id.value].author.None? then Some(ArticleNotFound)
    else if user.id != store[id.value].author.value.id then Some(Authentication)
    else None
  }

  /** A valid payload for an article of someone else is refused exactly as if the article did not exist. */
  lemma NonOwnerModifyLooksMissing(store: map<int, Article>, id: int, user: User)
    requires id in store && store[id].author.Some? && store[id].author.value.id != user.id
    ensures ModifyGuard(true, store, Some(id), user) == ModifyGuard(true, store - {id}, Some(id), user)
    ensures ModifyGuard(true, store, Some(id), user) == Some(ArticleModification(InvalidRequestExceptionMessage))
  {
  }

  /** Deleting an article of someone else is refused differently from deleting a missing one. */
  lemma NonOwnerDeleteRevealsExistence(store: map<int, Article>, id: int, user: User)
    requires id > 0 && id in store && store[id].author.Some? && store[id].author.value.id != user.id
    ensures DeleteGuard(store, Some(id), user) == Some(Authentication)
    ensures DeleteGuard(store - {id}, Some(id), user) == Some(ArticleNotFound)
  {
  }

  /** For a valid payload and a positive id, `modify` and `delete` admit exactly the same users. */
  lemma ModifyAndDeleteAgreeOnOwnership(store: map<int, Article>, id: int, user: User)
    requires id > 0
    ensures ModifyGuard(true, store, Some(id), user).None? <==> DeleteGuard(store, Some(id), user).None?
  {
  }

  /**
   * `getPageRequest`: the zero-based page `pageNumber - 1` (Java `int` subtraction) of
   * `PagePerArticleNumber` articles sorted by id descending; a negative index is refused.
   */
  function GetPageRequest(pageNumber: int32): (r: Result<PageRequest>)
    ensures 1 <= pageNumber ==>
              r == Success(PageRequest((pageNumber as int - 1) as int32, PagePerArticleNumber, Desc, "id"))
    ensures MinInt32 < pageNumber as int < 1 ==> r == Failure(IllegalArgument)
    ensures pageNumber as int == MinInt32 ==>
              r == Success(PageRequest(MaxInt32 as int32, PagePerArticleNumber, Desc, "id"))
  {
    var index := Sub(pageNumber, 1);
    if index < 0 then Failure(IllegalArgument)
    else Success(PageRequest(index, PagePerArticleNumber, Desc, "id"))
  }

  /** A list page built from the page the repository returns for page number `pageNumber` has that current page. */
  lemma PageNumberBecomesCurrentPage(pageNumber: int32, page: Page)
    requires 1 <= pageNumber
    requires page.number == GetPageRequest(pageNumber).value.page
    ensures Call(BuiltFrom(page), Current).answer == Number(pageNumber)
  {
  }

  /** The most negative page number is not refused: it wraps to the last page index, and the window to negative numbers. */
  lemma MostNegativePageNumberWraps(page: Page)
    requires page.number == GetPageRequest(MinInt32 as int32).value.page
    ensures GetPageRequest(MinInt32 as int32).Success?
    ensures Call(BuiltFrom(page), Current).answer.n as int == MinInt32
  {
    LastPageNumberWraps(page);
  }

  /** The largest page number is accepted; with MaxInt32 pages in all, its window ends on a negative number. */
  lemma LargestPageNumberWrapsEnd(page: Page)
    requires page.number == GetPageRequest(MaxInt32 as int32).value.page && page.totalPages as int == MaxInt32
    ensures page.number as int == MaxInt32 - 1
    ensures Call(BuiltFrom(page), End).answer.n as int == MinInt32 + 4
  {
    EndPageWrapsNearLastInt(page);
  }

  class ArticleService {
    const repository: Repository<Article>
    /** `Article.isRegistable`, not part of this model. */
    const isRegistable: Article -> bool
    /** The repository's full-text search over titles and contents. */
    const searchTitleAndContent: (map<int, Article>, string) -> seq<Article>
    /** The repository's paged query. */
    const findAll: (map<int, Article>, PageRequest) -> Page

    ghost predicate Valid()
      reads this, repository
    {
      repository.Valid() && repository.idOf == ArticleId && repository.withId == ArticleWithId
    }

    constructor (repository: Repository<Article>, isRegistable: Article -> bool,
                 searchTitleAndContent: (map<int, Article>, string) -> seq<Article>,
                 findAll: (map<int, Article>, PageRequest) -> Page)
      requires repository.Valid() && repository.idOf == ArticleId && repository.withId == ArticleWithId
      ensures Valid() && this.repository == repository
      ensures this.isRegistable == isRegistable && this.searchTitleAndContent == searchTitleAndContent
      ensures this.findAll == findAll
    {
      this.repository := repository;
      this.isRegistable := isRegistable;
      this.searchTitleAndContent := searchTitleAndContent;
      this.findAll := findAll;
    }

    /**
     * `create`: stamps `user` as the author (returned as `stamped`), then saves the article
     * if it is registrable and refuses it otherwise.
     */
    method Create(article: Article, user: User) returns (stamped: Article, outcome: Outcome)
      requires Valid()
      modifies repository
      ensures Valid()
      ensures stamped == article.(author := Some(user))
      ensures !isRegistable(stamped) ==>
                outcome == Fail(ArticleCreation(ValidationExceptionMessage)) && unchanged(repository)
      ensures isRegistable(stamped) ==>
                var k := old(repository.KeyFor(stamped));
                && outcome == Pass
                && repository.entries == old(repository.entries)[k := stamped.(id := Some(k))]
                && OwnedBy(repository.entries, k, user)
                && (stamped.id.None? ==> k !in old(repository.entries))
                && (stamped.id.Some? && stamped.id.value in old(repository.entries) ==> k == stamped.id.value)
    {
      stamped := article.(author := Some(user));
      if isRegistable(stamped) {
        var _ := repository.Save(stamped);
        outcome := Pass;
      } else {
        outcome := Fail(ArticleCreation(ValidationExceptionMessage));
      }
    }

    /** `findsByQueryString`: `None` (null) for a null or empty query, else the search result. */
    method FindsByQueryString(query: Option<string>) returns (result: Option<seq<Article>>)
      ensures (query.None? || query.value == "") ==> result.None?
      ensures query.Some? && query.value != "" ==>
                result == Some(searchTitleAndContent(repository.entries, query.value))
    {
      if query.None? || |query.value| == 0 {
        return None;
      }
      result := Some(searchTitleAndContent(repository.entries, query.value));
    }

    /**
     * `modify`: stamps `user` as the author of the request (returned as `stamped`), refuses it
     * as `ModifyGuard` says, and otherwise saves it under its own id and returns what the
     * repository answers.
     */
    method Modify(request: Article, user: User) returns (stamped: Article, result: Result<Article>)
      requires Valid()
      modifies repository
      ensures Valid()
      ensures stamped == request.(author := Some(user))
      ensures var refusal := ModifyGuard(isRegistable(stamped), old(repository.entries), stamped.id, user);
              && (refusal.Some? ==> result == Failure(refusal.value) && unchanged(repository))
              && (refusal.None? ==>
                    && repository.entries == old(repository.entries)[stamped.id.value := stamped]
                    && repository.nextId == old(repository.nextId)
                    && (result == Success(stamped) || result == Failure(ArticleModification(UnexpectedErrorMessage))))
    {
      stamped := request.(author := Some(user));
      if !isRegistable(stamped) {
        return stamped, Failure(ArticleModification(ValidationExceptionMessage));
      }
      if stamped.id.None? {
        return stamped, Failure(IllegalArgument);
      }
      var article := repository.FindOne(stamped.id.value);
      if article.None? {
        return stamped, Failure(ArticleModification(InvalidRequestExceptionMessage));
      }
      if article.value.author.None? {
        return stamped, Failure(NullPointer);
      }
      if article.value.author.value.id != user.id {
        return stamped, Failure(ArticleModification(InvalidRequestExceptionMessage));
      }
      var modified := repository.Save(stamped);
      if modified.None? {
        return stamped, Failure(ArticleModification(UnexpectedErrorMessage));
      }
      result := Success(modified.value);
    }

    /** `delete`: refuses as `DeleteGuard` says, and otherwise removes exactly that article. */
    method Delete(articleId: Option<int>, user: User) returns (outcome: Outcome)
      requires Valid()
      modifies repository
      ensures Valid()
      ensures var refusal := DeleteGuard(old(repository.entries), articleId, user);
              && (refusal.Some? ==> outcome == Fail(refusal.value) && unchanged(repository))
              && (refusal.None? ==>
                    && outcome == Pass
                    && repository.entries == old(repository.entries) - {articleId.value}
                    && repository.nextId == old(repository.nextId))
    {
      if articleId.None? || articleId.value <= 0 {
        return Fail(ArticleNotFound);
      }
      var article := repository.FindOne(articleId.value);
      if article.None? || article.value.author.None? {
        return Fail(ArticleNotFound);
      }
      var author := article.value.author.value;
      if user.id != author.id {
        return Fail(Authentication);
      }
      repository.Delete(articleId.value);
      outcome := Pass;
    }

    /** `findById`: `None` (null) for a non-positive id, else the stored article, if any. */
    method FindById(articleId: int) returns (result: Option<Article>)
      ensures articleId <= 0 ==> result.None?
      ensures articleId > 0 ==> (result.Some? <==> articleId in repository.entries)
      ensures result.Some? ==> result.value == repository.entries[articleId]
    {
      if articleId <= 0 {
        return None;
      }
      result := repository.FindOne(articleId);
    }

    /** `findsByPageNumber`: the list page built from the repository page `pageNumber` asks for. */
    method FindsByPageNumber(pageNumber: int32) returns (result: Result<ArticlePage>)
      ensures GetPageRequest(pageNumber).Failure? ==> result == Failure(IllegalArgument)
      ensures GetPageRequest(pageNumber).Success? ==>
                && result.Success? && fresh(result.value)
                && result.value.State() == BuiltFrom(findAll(repository.entries, GetPageRequest(pageNumber).value))
    {
      var request := GetPageRequest(pageNumber);
      if request.Failure? {
        return Failure(request.error);
      }
      var page := new ArticlePage.FromPage(findAll(repository.entries, request.value));
      result := Success(page);
    }
  }
}
