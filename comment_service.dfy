/** Comment creation: refuses a null comment, stamps the author, validates, saves. */
module CommentServices {
  import opened Domain
  import opened Repositories

  class CommentService {
    const repository: Repository<Comment>
    /** `Comment.canRegistable`, not part of this model. */
    const canRegistable: Comment -> bool

    ghost predicate Valid()
      reads this, repository
    {
      repository.Valid() && repository.idOf == CommentId && repository.withId == CommentWithId
    }

    constructor (repository: Repository<Comment>, canRegistable: Comment -> bool)
      requires repository.Valid() && repository.idOf == CommentId && repository.withId == CommentWithId
      ensures Valid() && this.repository == repository && this.canRegistable == canRegistable
    {
      this.repository := repository;
      this.canRegistable := canRegistable;
    }

    /**
     * `create`: a null comment is refused before anything else; otherwise `user` is stamped
     * as its author (returned as `stamped`), and it is refused if not registrable and saved
     * if it is, returning what the repository answers.
     */
    method Create(comment: Option<Comment>, user: User) returns (stamped: Option<Comment>, result: Result<Option<Comment>>)
      requires Valid()
      modifies repository
      ensures Valid()
      ensures comment.None? ==> stamped.None? && result == Failure(IllegalArgument) && unchanged(repository)
      ensures comment.Some? ==> stamped == Some(comment.value.(author := Some(user)))
      ensures comment.Some? && !canRegistable(stamped.value) ==>
                result == Failure(IllegalArgument) && unchanged(repository)
      ensures comment.Some? && canRegistable(stamped.value) ==>
                var k := old(repository.KeyFor(stamped.value));
                && repository.entries == old(repository.entries)[k := stamped.value.(id := Some(k))]
                && repository.entries[k].author == Some(user)
                && result.Success?
                && (result.value.Some? ==> result.value.value == stamped.value.(id := Some(k)))
    {
      if comment.None? {
        return None, Failure(IllegalArgument);
      }
      var c := comment.value.(author := Some(user));
      stamped := Some(c);
      if !canRegistable(c) {
        return stamped, Failure(IllegalArgument);
      }
      var saved := repository.Save(c);
      result := Success(saved);
    }
  }
}
