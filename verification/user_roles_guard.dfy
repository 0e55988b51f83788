/** The role guard (user-roles.guard.ts): the roles required by the resolver (absent when
    neither handler nor class names any) against the role of the request's user. */
module UserRolesGuard {
  import opened Wrappers
  import opened Exceptions
  import opened UserEntity

  const InsufficientPermissions: string := "Insufficient permissions"

  /** `requiredRoles.some((role) => user.role === role)`. */
  function SomeRoleMatches(required: seq<UserRole>, role: UserRole): (b: bool)
    ensures b <==> role in required
  {
    if |required| == 0 then false
    else required[0] == role || SomeRoleMatches(required[1..], role)
  }

  /** canActivate: true when nothing is required or the user holds one of the required
      roles; otherwise Forbidden, also when there is no user at all. */
  function CanActivate(required: Option<seq<UserRole>>, user: Option<User>): (r: Result<bool, HttpException>)
    ensures r.Ok? ==> r.value
    ensures r.Ok? <==> required.None? || |required.value| == 0 || (user.Some? && user.value.role in required.value)
    ensures r.Err? ==> r.error == Forbidden(InsufficientPermissions)
  {
    if required.None? || |required.value| == 0 then Ok(true)
    else if user.None? then Err(Forbidden(InsufficientPermissions))
    else if !SomeRoleMatches(required.value, user.value.role) then Err(Forbidden(InsufficientPermissions))
    else Ok(true)
  }

  /** The users resolver requires ADMIN at class level: only administrators get through. */
  lemma AdminOnlyResolver(user: Option<User>)
    ensures CanActivate(Some([ADMIN]), user).Ok? <==> user.Some? && user.value.role == ADMIN
  {
  }
}
