/** The comment routes (api/v1/routers/comment.py). Every handler first passes the
    requester through the gate. A new comment's author is always the requester; a
    delete is authorized against the loaded requester. */
module CommentRouter {
  import opened Outcomes
  import opened Models
  import opened Tables
  import opened Crud
  import opened Pagination
  import opened Gate
  import CommentService

  /** `create_comment`: the gate (404, 403); then the service's create with the
      requester as author: a missing applicant (404); otherwise exactly one comment,
      by the requester, is added. */
  method CreateComment(store: Store, requesterId: int, applicantId: int, text: string) returns (r: Result<Row<Comment>>)
    modifies store
    ensures GetUserObj(old(store.db.users), requesterId).Err? ==>
              r == Err(GetUserObj(old(store.db.users), requesterId).error) && store.db == old(store.db)
    ensures GetUserObj(old(store.db.users), requesterId).Ok? && !old(store.db.applicants).Has(applicantId) ==>
              r == Err(HttpException(NotFound, "Applicant not found")) && store.db == old(store.db)
    ensures GetUserObj(old(store.db.users), requesterId).Ok? && old(store.db.applicants).Has(applicantId) ==>
              && r == Ok(Row(old(store.db.comments.nextId), Comment(applicantId, requesterId, text, old(store.db.clock))))
              && store.db == old(store.db).(comments := old(store.db.comments).Add(r.value.val), clock := old(store.db.clock) + 1)
  {
    var requester := GetUserObj(store.db.users, requesterId);
    if requester.Err? {
      return Err(requester.error);
    }
    r := CommentService.CreateComment(store, applicantId, requesterId, text);
  }

  /** `get_comment`: the gate (404, 403), then the stored comment (404). */
  function GetComment(store: Store, requesterId: int, id: int): (r: Result<Row<Comment>>)
    reads store
    ensures GetUserObj(store.db.users, requesterId).Err? ==> r == Err(GetUserObj(store.db.users, requesterId).error)
    ensures GetUserObj(store.db.users, requesterId).Ok? && !store.db.comments.Has(id) ==>
              r == Err(HttpException(NotFound, "Comment not found"))
    ensures r.Ok? <==> GetUserObj(store.db.users, requesterId).Ok? && store.db.comments.Has(id)
    ensures r.Ok? ==> r.value == Row(id, store.db.comments.rows[id])
  {
    match GetUserObj(store.db.users, requesterId)
    case Err(e) => Err(e)
    case Ok(_) => store.GetComment(id)
  }

  /** `delete_comment`: the gate (404, 403); then the service's delete against the
      loaded requester: a missing comment (404), a requester who is neither its
      author nor an admin (403); otherwise exactly that comment is removed. The
      route is built on the corrected service (`CommentService.DeleteComment`), which
      passes the requester on to the store; the service as written omits it, and there
      every permitted delete ends in a server error
      (`CommentService.DeleteCommentAsWritten`). */
  method DeleteComment(store: Store, requesterId: int, commentId: int) returns (r: Result<()>)
    modifies store
    ensures GetUserObj(old(store.db.users), requesterId).Err? ==> r == Err(GetUserObj(old(store.db.users), requesterId).error)
    ensures GetUserObj(old(store.db.users), requesterId).Ok? && !old(store.db.comments).Has(commentId) ==>
              r == Err(HttpException(NotFound, "Comment not found"))
    ensures GetUserObj(old(store.db.users), requesterId).Ok? && old(store.db.comments).Has(commentId) &&
            !CommentService.MayDelete(old(store.db.comments.rows[commentId]), Row(requesterId, old(store.db.users.rows[requesterId]))) ==>
              r == Err(CommentService.NotAuthor)
    ensures r.Err? ==> store.db == old(store.db)
    ensures r.Ok? <==>
              && GetUserObj(old(store.db.users), requesterId).Ok? && old(store.db.comments).Has(commentId)
              && CommentService.MayDelete(old(store.db.comments.rows[commentId]), Row(requesterId, old(store.db.users.rows[requesterId])))
    ensures r.Ok? ==> store.db == old(store.db).(comments := old(store.db.comments).Remove(commentId))
  {
    var requester := GetUserObj(store.db.users, requesterId);
    if requester.Err? {
      return Err(requester.error);
    }
    r := CommentService.DeleteComment(store, commentId, requester.value);
  }

  /** `list_comments_by_applicant`: the gate (404, 403), then the listing of one
      applicant's comments, oldest first; page 1 of 20 rows unless the client asks
      otherwise. */
  function ListComments(store: Store, requesterId: int, applicantId: int, page: int := 1, pageSize: int := 20)
    : (r: Result<Page<Row<Comment>>>)
    reads store
    ensures GetUserObj(store.db.users, requesterId).Err? ==> r == Err(GetUserObj(store.db.users, requesterId).error)
    ensures GetUserObj(store.db.users, requesterId).Ok? ==>
              r == CommentService.ListComments(store.db.comments, applicantId, page, pageSize)
  {
    match GetUserObj(store.db.users, requesterId)
    case Err(e) => Err(e)
    case Ok(_) => CommentService.ListComments(store.db.comments, applicantId, page, pageSize)
  }
}
