/** The entities the services handle, and the outcomes of their operations. */
module Domain {

  /** A value or Java's `null`. */
  datatype Option<+T> = None | Some(value: T)

  /** The exceptions the core raises, as tags. */
  datatype Error =
    | ArticleCreation(message: string)      // ArticleCreationException
    | ArticleModification(message: string)  // ArticleModificationException
    | ArticleNotFound                       // ArticleNotFoundException
    | Authentication                        // javax.naming.AuthenticationException
    | IllegalArgument                       // IllegalArgumentException
    | NullPointer                           // NullPointerException

  /** The outcome of an operation that returns a value or throws. */
  datatype Result<+T> = Success(value: T) | Failure(error: Error)

  /** The outcome of a `void` operation that may throw. */
  datatype Outcome = Pass | Fail(error: Error)

  datatype User = User(id: int, name: string)

  /** An article; `id` is `None` until the persistence layer assigns one. */
  datatype Article = Article(id: Option<int>, title: string, content: string, author: Option<User>)

  /** A comment on the article with id `articleId`. */
  datatype Comment = Comment(id: Option<int>, articleId: Option<int>, content: string, author: Option<User>)

  function ArticleId(a: Article): Option<int> { a.id }

  function ArticleWithId(a: Article, k: int): Article { a.(id := Some(k)) }

  function CommentId(c: Comment): Option<int> { c.id }

  function CommentWithId(c: Comment, k: int): Comment { c.(id := Some(k)) }
}
