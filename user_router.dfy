/** The user routes (api/v1/routers/user.py). Every handler first passes the
    requester through the gate. Creating a user is reserved to admins; a role
    change and a deactivation hand the loaded requester to the service and the store,
    which make their own checks. The role in a request is a `UserRole` member, whose
    name the store then always finds. */
module UserRouter {
  import opened Outcomes
  import opened Models
  import opened Tables
  import opened Crud
  import opened Pagination
  import opened Gate
  import UserService

  /** A role sent in a request always names a role the store accepts. */
  lemma RequestRoleAccepted(role: UserRole)
    ensures ParseRole(RoleName(role)) == Some(role)
  {
  }

  /** `create_user`: the gate (404, 403), the admin check (403); then the service's
      create: a short password (400), a taken username (409); otherwise the user is
      added, active, with the requested role. */
  method CreateUser(store: Store, requesterId: int, username: string, password: string, passwordHash: string, role: UserRole)
    returns (r: Result<Row<User>>)
    modifies store
    ensures GetAdmin(old(store.db.users), requesterId, "Only admins can create users").Err? ==>
              r == Err(GetAdmin(old(store.db.users), requesterId, "Only admins can create users").error)
    ensures GetAdmin(old(store.db.users), requesterId, "Only admins can create users").Ok? && |password| < 8 ==>
              r == Err(UserService.ShortPassword)
    ensures GetAdmin(old(store.db.users), requesterId, "Only admins can create users").Ok? && |password| >= 8 &&
            UsernameTaken(old(store.db.users), username) ==>
              r == Err(HttpException(Conflict, "Username already exists"))
    ensures r.Err? ==> store.db == old(store.db)
    ensures r.Ok? <==>
              && GetAdmin(old(store.db.users), requesterId, "Only admins can create users").Ok?
              && |password| >= 8 && !UsernameTaken(old(store.db.users), username)
    ensures r.Ok? ==>
              && r.value == Row(old(store.db.users.nextId), NewUser(username, passwordHash, role, old(store.db.clock)))
              && store.db == old(store.db).(users := old(store.db.users).Add(r.value.val), clock := old(store.db.clock) + 1)
  {
    var requester := GetAdmin(store.db.users, requesterId, "Only admins can create users");
    if requester.Err? {
      return Err(requester.error);
    }
    RequestRoleAccepted(role);
    r := UserService.CreateUser(store, username, password, passwordHash, RoleName(role));
  }

  /** `get_user`: the gate (404, 403), then the stored user (404). */
  function GetUser(store: Store, requesterId: int, userId: int): (r: Result<Row<User>>)
    reads store
    ensures GetUserObj(store.db.users, requesterId).Err? ==> r == Err(GetUserObj(store.db.users, requesterId).error)
    ensures GetUserObj(store.db.users, requesterId).Ok? && !store.db.users.Has(userId) ==>
              r == Err(HttpException(NotFound, "User not found"))
    ensures r.Ok? <==> GetUserObj(store.db.users, requesterId).Ok? && store.db.users.Has(userId)
    ensures r.Ok? ==> r.value == Row(userId, store.db.users.rows[userId])
  {
    match GetUserObj(store.db.users, requesterId)
    case Err(e) => Err(e)
    case Ok(_) => store.GetUser(userId)
  }

  /** `get_users`: the gate (404, 403), then the users listing, which has no page
      guard; page 1 of 20 rows unless the client asks otherwise. */
  method ListUsers(store: Store, requesterId: int, page: int := 1, pageSize: int := 20) returns (r: Result<Page<Row<User>>>)
    ensures GetUserObj(store.db.users, requesterId).Err? ==> r == Err(GetUserObj(store.db.users, requesterId).error)
    ensures GetUserObj(store.db.users, requesterId).Ok? ==> r == FetchPage(store.db.users.Listing(), page, pageSize)
  {
    var requester := GetUserObj(store.db.users, requesterId);
    if requester.Err? {
      return Err(requester.error);
    }
    r := UserService.ListUsers(store, page, pageSize);
  }

  /** `update_user_role`: the gate (404, 403); then the service with the loaded
      requester: a requester who is not an admin (403), a change of one's own role
      (400), a missing user (404); otherwise only that user's role changes. */
  method UpdateUserRole(store: Store, requesterId: int, userId: int, newRole: UserRole) returns (r: Result<Row<User>>)
    modifies store
    ensures GetUserObj(old(store.db.users), requesterId).Err? ==> r == Err(GetUserObj(old(store.db.users), requesterId).error)
    ensures GetUserObj(old(store.db.users), requesterId).Ok? && old(store.db.users.rows[requesterId]).role != Admin ==>
              r == Err(HttpException(Forbidden, "Only admins can change user roles"))
    ensures GetUserObj(old(store.db.users), requesterId).Ok? && old(store.db.users.rows[requesterId]).role == Admin &&
            userId == requesterId ==>
              r == Err(HttpException(BadRequest, "You cannot change your own role"))
    ensures GetUserObj(old(store.db.users), requesterId).Ok? && old(store.db.users.rows[requesterId]).role == Admin &&
            userId != requesterId && !old(store.db.users).Has(userId) ==>
              r == Err(HttpException(NotFound, "User not found"))
    ensures r.Err? ==> store.db == old(store.db)
    ensures r.Ok? <==>
              && GetUserObj(old(store.db.users), requesterId).Ok? && old(store.db.users.rows[requesterId]).role == Admin
              && userId != requesterId && old(store.db.users).Has(userId)
    ensures r.Ok? ==>
              && r.value == Row(userId, old(store.db.users.rows[userId]).(role := newRole))
              && store.db == old(store.db).(users := old(store.db.users).Update(userId, r.value.val))
  {
    var requester := GetUserObj(store.db.users, requesterId);
    if requester.Err? {
      return Err(requester.error);
    }
    RequestRoleAccepted(newRole);
    r := UserService.UpdateRole(store, userId, RoleName(newRole), requester.value);
  }

  /** `deactivate_user`: the gate (404, 403); then the store with the loaded
      requester, in its own order: a missing user (404), oneself (400), a requester
      who is not an admin (403); otherwise only that user's `is_active` turns false. */
  method DeactivateUser(store: Store, requesterId: int, userId: int) returns (r: Result<()>)
    modifies store
    ensures GetUserObj(old(store.db.users), requesterId).Err? ==> r == Err(GetUserObj(old(store.db.users), requesterId).error)
    ensures GetUserObj(old(store.db.users), requesterId).Ok? ==>
              && (!old(store.db.users).Has(userId) ==> r == Err(HttpException(NotFound, "User not found")))
              && (old(store.db.users).Has(userId) && userId == requesterId ==>
                    r == Err(HttpException(BadRequest, "You cannot deactivate yourself")))
              && (old(store.db.users).Has(userId) && userId != requesterId && old(store.db.users.rows[requesterId]).role != Admin ==>
                    r == Err(HttpException(Forbidden, "Only admins can deactivate users")))
    ensures r.Err? ==> store.db == old(store.db)
    ensures r.Ok? <==>
              && GetUserObj(old(store.db.users), requesterId).Ok? && old(store.db.users.rows[requesterId]).role == Admin
              && userId != requesterId && old(store.db.users).Has(userId)
    ensures r.Ok? ==>
              store.db == old(store.db).(users := old(store.db.users).Update(userId, old(store.db.users.rows[userId]).(isActive := false)))
  {
    var requester := GetUserObj(store.db.users, requesterId);
    if requester.Err? {
      return Err(requester.error);
    }
    r := store.DeactivateUser(userId, requester.value);
  }
}
