/** The requester gate that opens every route handler (`get_user_obj`, declared in
    each router: api/v1/routers/applicant.py:18-22 and its copies), and the admin
    check of the handlers reserved to administrators. The requester's id comes from
    the access token; how the token is checked is not part of this model. */
module Gate {
  import opened Outcomes
  import opened Models
  import opened Tables
  import opened Crud

  /** The refusal of an inactive requester. */
  const Inactive := HttpException(Forbidden, "User is not active")

  /** `get_user_obj`: the requester's row, or 404 when no user has that id, or 403
      when the user is deactivated. */
  function GetUserObj(users: Table<User>, requesterId: int): (r: Result<Row<User>>)
    ensures !users.Has(requesterId) ==> r == Err(HttpException(NotFound, "User not found"))
    ensures users.Has(requesterId) && !users.rows[requesterId].isActive ==> r == Err(Inactive)
    ensures r.Ok? <==> users.Has(requesterId) && users.rows[requesterId].isActive
    ensures r.Ok? ==> r.value == Row(requesterId, users.rows[requesterId])
  {
    match Lookup(users, requesterId, "User not found")
    case Err(e) => Err(e)
    case Ok(user) => if !user.val.isActive then Err(Inactive) else Ok(user)
  }

  /** The gate followed by an admin check: an active admin passes, an active
      requester of any other role is refused with `message`. */
  function GetAdmin(users: Table<User>, requesterId: int, message: string): (r: Result<Row<User>>)
    ensures GetUserObj(users, requesterId).Err? ==> r == GetUserObj(users, requesterId)
    ensures GetUserObj(users, requesterId).Ok? && users.rows[requesterId].role != Admin ==>
              r == Err(HttpException(Forbidden, message))
    ensures r.Ok? <==> users.Has(requesterId) && users.rows[requesterId].isActive && users.rows[requesterId].role == Admin
  {
    match GetUserObj(users, requesterId)
    case Err(e) => Err(e)
    case Ok(requester) => if requester.val.role != Admin then Err(HttpException(Forbidden, message)) else Ok(requester)
  }
}
