/** The user service (api/v1/services/user.py): a password-length check before
    the store's `create_user`, an admin check before the store's `update_user_role`,
    and the users listing with its own trimming of the over-fetched rows. Reading one
    user and deactivating one are the store's `get_user` and `deactivate_user`
    unchanged (`Crud.Store.GetUser`, `Crud.Store.DeactivateUser`). */
module UserService {
  import opened Outcomes
  import opened Models
  import opened Tables
  import opened Crud
  import opened Pagination

  /** The refusal of a password shorter than eight characters. */
  const ShortPassword := HttpException(BadRequest, "Password must be at least 8 characters long")

  /** `create_user`: a password shorter than 8 characters is refused (400) before the
      store is touched; then the store's `create_user` (400 for an unknown role, 409
      for a taken username). `passwordHash` is the argon2 hash of `password`. */
  method CreateUser(store: Store, username: string, password: string, passwordHash: string, role: string)
    returns (r: Result<Row<User>>)
    modifies store
    ensures |password| < 8 ==> r == Err(ShortPassword)
    ensures |password| >= 8 && ParseRole(role).None? ==> r == Err(HttpException(BadRequest, "Invalid role"))
    ensures |password| >= 8 && ParseRole(role).Some? && UsernameTaken(old(store.db.users), username) ==>
              r == Err(HttpException(Conflict, "Username already exists"))
    ensures r.Err? ==> store.db == old(store.db)
    ensures r.Ok? <==> |password| >= 8 && ParseRole(role).Some? && !UsernameTaken(old(store.db.users), username)
    ensures r.Ok? ==>
              && r.value == Row(old(store.db.users.nextId), NewUser(username, passwordHash, ParseRole(role).value, old(store.db.clock)))
              && store.db == old(store.db).(users := old(store.db.users).Add(r.value.val), clock := old(store.db.clock) + 1)
  {
    if |password| < 8 {
      return Err(ShortPassword);
    }
    r := store.CreateUser(username, passwordHash, role);
  }

  /** `update_role`: a caller who is not an admin is refused (403) before the store's
      own checks run, so the store's "Only admins can change roles" is never the
      answer; an admin then meets the store's order: self (400), missing target
      (404), unknown role (400). On success only the target's role changes. */
  method UpdateRole(store: Store, userId: int, newRole: string, current: Row<User>) returns (r: Result<Row<User>>)
    modifies store
    ensures current.val.role != Admin ==> r == Err(HttpException(Forbidden, "Only admins can change user roles"))
    ensures current.val.role == Admin && userId == current.id ==>
              r == Err(HttpException(BadRequest, "You cannot change your own role"))
    ensures current.val.role == Admin && userId != current.id && !old(store.db.users).Has(userId) ==>
              r == Err(HttpException(NotFound, "User not found"))
    ensures current.val.role == Admin && userId != current.id && old(store.db.users).Has(userId) && ParseRole(newRole).None? ==>
              r == Err(HttpException(BadRequest, "Invalid role"))
    ensures r != Err(HttpException(Forbidden, "Only admins can change roles"))
    ensures r.Err? ==> store.db == old(store.db)
    ensures r.Ok? <==> current.val.role == Admin && userId != current.id && old(store.db.users).Has(userId) && ParseRole(newRole).Some?
    ensures r.Ok? ==>
              && r.value == Row(userId, old(store.db.users.rows[userId]).(role := ParseRole(newRole).value))
              && store.db == old(store.db).(users := old(store.db.users).Update(userId, r.value.val))
  {
    if current.val.role != Admin {
      return Err(HttpException(Forbidden, "Only admins can change user roles"));
    }
    r := store.UpdateUserRole(userId, newRole, current);
  }

  /** `get_users_paginated`: no page guard; the rows from offset
      `(page - 1) * page_size`, at most `page_size + 1` of them, are fetched, and when
      more than `page_size` came back a next page is reported and the last row is
      dropped. This is the over-fetch listing of the users in key order. */
  method ListUsers(store: Store, page: int, pageSize: int) returns (r: Result<Page<Row<User>>>)
    ensures r == FetchPage(store.db.users.Listing(), page, pageSize)
  {
    var offset := (page - 1) * pageSize;
    var fetched := Window(store.db.users.Listing(), offset, pageSize + 1);
    if fetched.Err? {
      return Err(fetched.error);
    }
    var p := TrimOverFetch(fetched.value, page, pageSize);
    r := Ok(p);
  }

  /** The users listing has no page guard: with a page size of 0 every page number,
      0 and below included, is answered, echoing the number, with no rows and a next
      page exactly when there are users. */
  lemma {:induction false} UsersPageUnguarded(all: seq<Row<User>>, page: int)
    ensures FetchPage(all, page, 0) == Ok(Page(page, |all| > 0, []))
    ensures page < 1 ==> GuardedPage(all, page, 0) == Err(PageTooLow)
  {
    assert (page - 1) * 0 == 0;
    assert Window(all, 0, 1).Ok?;
  }
}
