/** The comment service (api/v1/services/comment.py): adding a comment after the
    service's own existence checks, reading one (the store's `get_comment`
    unchanged, `Crud.Store.GetComment`), deleting one as its author or as an admin,
    and listing one applicant's comments, oldest first. */
module CommentService {
  import opened Outcomes
  import opened Models
  import opened Tables
  import opened Crud
  import opened Pagination

  /** The refusal of a delete by someone who is neither the author nor an admin. */
  const NotAuthor := HttpException(Forbidden, "Only the comment author or admins can delete this comment")

  /** `create_comment`: a missing applicant (404), then a missing user (404); the
      store's `create_comment` repeats both checks, which pass, and adds exactly one
      comment by that user, stamped with the current time. */
  method CreateComment(store: Store, applicantId: int, userId: int, text: string) returns (r: Result<Row<Comment>>)
    modifies store
    ensures !old(store.db.applicants).Has(applicantId) ==> r == Err(HttpException(NotFound, "Applicant not found"))
    ensures old(store.db.applicants).Has(applicantId) && !old(store.db.users).Has(userId) ==>
              r == Err(HttpException(NotFound, "User not found"))
    ensures r.Err? ==> store.db == old(store.db)
    ensures r.Ok? <==> old(store.db.applicants).Has(applicantId) && old(store.db.users).Has(userId)
    ensures r.Ok? ==>
              && r.value == Row(old(store.db.comments.nextId), Comment(applicantId, userId, text, old(store.db.clock)))
              && store.db == old(store.db).(comments := old(store.db.comments).Add(r.value.val), clock := old(store.db.clock) + 1)
  {
    var applicant := store.GetApplicant(applicantId);
    if applicant.Err? {
      return Err(applicant.error);
    }
    var user := store.GetUser(userId);
    if user.Err? {
      return Err(user.error);
    }
    r := store.CreateComment(applicantId, userId, text);
  }

  /** The author of the comment or an admin may delete it. */
  predicate MayDelete(comment: Comment, current: Row<User>) {
    comment.userId == current.id || current.val.role == Admin
  }

  /** `delete_comment` as written: a missing comment (404), a requester who is neither
      the author nor an admin (403); then the store's `delete_comment` is called
      without its required `current_user` argument. The call raises a `TypeError`
      before anything is deleted, so every permitted delete ends in a server error
      and the comment stays. */
  method DeleteCommentAsWritten(store: Store, commentId: int, current: Row<User>) returns (r: Result<()>)
    modifies store
    ensures !old(store.db.comments).Has(commentId) ==> r == Err(HttpException(NotFound, "Comment not found"))
    ensures old(store.db.comments).Has(commentId) && !MayDelete(old(store.db.comments.rows[commentId]), current) ==>
              r == Err(NotAuthor)
    ensures old(store.db.comments).Has(commentId) && MayDelete(old(store.db.comments.rows[commentId]), current) ==>
              r == Err(InternalError)
    ensures r.Err? && store.db == old(store.db)
  {
    var comment := store.GetComment(commentId);
    if comment.Err? {
      return Err(comment.error);
    }
    if !MayDelete(comment.value.val, current) {
      return Err(NotAuthor);
    }
    // `crud_delete_comment(session, comment_id)`: the missing argument is a TypeError.
    r := Err(InternalError);
  }

  /** `delete_comment` as evidently intended, with the requester passed on to the
      store: a missing comment (404), a requester who is neither the author nor an
      admin (403, the comment stays); otherwise exactly that comment is removed. */
  method DeleteComment(store: Store, commentId: int, current: Row<User>) returns (r: Result<()>)
    modifies store
    ensures !old(store.db.comments).Has(commentId) ==> r == Err(HttpException(NotFound, "Comment not found"))
    ensures old(store.db.comments).Has(commentId) && !MayDelete(old(store.db.comments.rows[commentId]), current) ==>
              r == Err(NotAuthor)
    ensures r.Err? ==> store.db == old(store.db)
    ensures r.Ok? <==> old(store.db.comments).Has(commentId) && MayDelete(old(store.db.comments.rows[commentId]), current)
    ensures r.Ok? ==> store.db == old(store.db).(comments := old(store.db.comments).Remove(commentId))
  {
    var comment := store.GetComment(commentId);
    if comment.Err? {
      return Err(comment.error);
    }
    if !MayDelete(comment.value.val, current) {
      return Err(NotAuthor);
    }
    r := store.DeleteComment(commentId, current);
  }

  /** The comments on one applicant, ordered by `created_at` ascending: stamps grow
      with the key, so this is the applicant's comments in key order. */
  function CommentsFor(comments: Table<Comment>, applicantId: int): (r: seq<Row<Comment>>)
    requires comments.Valid()
    ensures forall i :: 0 <= i < |r| ==> r[i].val.applicantId == applicantId && comments.Get(r[i].id) == Some(r[i])
    ensures forall id :: comments.Has(id) && comments.rows[id].applicantId == applicantId ==> Row(id, comments.rows[id]) in r
    ensures KeyOrdered(r)
  {
    Where(comments.Listing(), (c: Comment) => c.applicantId == applicantId)
  }

  /** The applicant's comments come oldest first: along the listing the stamps
      strictly increase. */
  lemma {:induction false} CommentsOldestFirst(comments: Table<Comment>, clock: nat, applicantId: int)
    requires comments.Valid() && CommentsChronological(comments, clock)
    ensures var r := CommentsFor(comments, applicantId);
      forall i, j :: 0 <= i < j < |r| ==> r[i].val.createdAt < r[j].val.createdAt
  {
    var r := CommentsFor(comments, applicantId);
    forall i, j | 0 <= i < j < |r| ensures r[i].val.createdAt < r[j].val.createdAt {
      assert r[i].id < r[j].id;
    }
  }

  /** `get_comments_paginated`: a page below 1 is refused (400); otherwise the
      over-fetch listing of the applicant's comments, oldest first. */
  function ListComments(comments: Table<Comment>, applicantId: int, page: int, pageSize: int): (r: Result<Page<Row<Comment>>>)
    requires comments.Valid()
    ensures page < 1 ==> r == Err(PageTooLow)
    ensures 1 <= page && 0 <= pageSize ==> r.Ok? && r.value.page == page
    ensures 1 <= page && 0 <= pageSize ==> (r.value.nextPage <==> |CommentsFor(comments, applicantId)| > page * pageSize)
    ensures 1 <= page && 0 <= pageSize ==>
              forall i :: 0 <= i < |r.value.items| ==>
                r.value.items[i].val.applicantId == applicantId && comments.Get(r.value.items[i].id) == Some(r.value.items[i])
    ensures 1 <= page && 0 <= pageSize ==> r.value.items == PageRows(CommentsFor(comments, applicantId), page, pageSize)
  {
    GuardedPage(CommentsFor(comments, applicantId), page, pageSize)
  }
}
