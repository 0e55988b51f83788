/** The policy guard (policy.guard.ts). The `{ action, entity }` configuration on the
    resolver (absent when neither handler nor class carries one), the request's user and
    the `id` argument of the GraphQL call are its inputs; it answers true, answers false,
    or throws Forbidden. */
module PolicyGuard {
  import opened Wrappers
  import opened Exceptions
  import opened UserEntity
  import opened Policies
  import UserPolicy

  /** The actions a configuration may name; `Unlisted` stands for any other value, which
      the guard's switch does not handle. */
  datatype PolicyAction = INDEX | SHOW | CREATE | UPDATE | DELETE | Unlisted(name: string)

  datatype PolicyConfig = PolicyConfig(action: PolicyAction, entity: string)

  /** The service call each action is dispatched to. */
  function OperationOf(a: PolicyAction): (r: Option<Operation>)
    ensures r.None? <==> a.Unlisted?
    ensures a == INDEX ==> r == Some(Index)
    ensures a == SHOW ==> r == Some(Show)
    ensures a == CREATE ==> r == Some(Create)
    ensures a == UPDATE ==> r == Some(Update)
    ensures a == DELETE ==> r == Some(Delete)
  {
    match a
    case INDEX => Some(Index)
    case SHOW => Some(Show)
    case CREATE => Some(Create)
    case UPDATE => Some(Update)
    case DELETE => Some(Delete)
    case Unlisted(_) => None
  }

  /** `{ id: args.id }` for actions on one record, no resource otherwise. */
  function GuardResource(a: PolicyAction, argsId: JsValue): (r: Option<Resource>)
    ensures r.Some? <==> a == SHOW || a == UPDATE || a == DELETE
    ensures r.Some? ==> r.value.id == argsId
  {
    if a in [SHOW, UPDATE, DELETE] then Some(Resource(argsId)) else None
  }

  /** `result.message || 'Access denied'`. */
  function ForbiddenMessage(result: PolicyResult): (m: string)
    ensures m != ""
    ensures result.message.Some? && result.message.value != "" ==> m == result.message.value
    ensures !(result.message.Some? && result.message.value != "") ==> m == "Access denied"
  {
    if result.message.Some? && result.message.value != "" then result.message.value else "Access denied"
  }

  /** canActivate. */
  function CanActivate(reg: Registry, config: Option<PolicyConfig>, user: Option<Actor>, argsId: JsValue)
    : (r: Result<bool, HttpException>)
    ensures config.None? ==> r == Ok(true)
    ensures r == Ok(false) <==> config.Some? && config.value.action.Unlisted?
    ensures config.Some? && !config.value.action.Unlisted? ==>
      var result := Evaluate(reg, OperationOf(config.value.action).value, config.value.entity,
                             PolicyContext(user, GuardResource(config.value.action, argsId)));
      && (r == Ok(true) <==> result.value)
      && (r.Err? ==> r.error == Forbidden(ForbiddenMessage(result)))
  {
    match config
    case None => Ok(true)
    case Some(cfg) =>
      var ctx := PolicyContext(user, GuardResource(cfg.action, argsId));
      match OperationOf(cfg.action)
      case None => Ok(false)
      case Some(op) =>
        var result := Evaluate(reg, op, cfg.entity, ctx);
        if !result.value then Err(Forbidden(ForbiddenMessage(result))) else Ok(true)
  }

  /** The guard never answers false for a listed action: it allows or throws. A throw
      always carries a non-empty message. */
  lemma GuardAllowsOrThrows(reg: Registry, cfg: PolicyConfig, user: Option<Actor>, argsId: JsValue)
    requires !cfg.action.Unlisted?
    ensures CanActivate(reg, Some(cfg), user, argsId) == Ok(true)
         || (CanActivate(reg, Some(cfg), user, argsId).Err?
             && CanActivate(reg, Some(cfg), user, argsId).error.Forbidden?
             && CanActivate(reg, Some(cfg), user, argsId).error.message != "")
  {
  }

  /** An entity without a registered policy is forbidden with the registry's message. */
  lemma UnregisteredEntityForbidden(reg: Registry, cfg: PolicyConfig, user: Option<Actor>, argsId: JsValue)
    requires !cfg.action.Unlisted? && cfg.entity !in reg
    ensures CanActivate(reg, Some(cfg), user, argsId) == Err(Forbidden(NoPolicyMessage))
  {
  }

  /** The GraphQL operations of the users resolver, with the argument each receives:
      `user` takes an `id` of GraphQL type String, the mutations take an `input` object
      and no `id` at all. */
  datatype UsersOperation = ListUsers | ShowUser(id: string) | CreateUser | UpdateUser | DestroyUser

  function ConfigOf(op: UsersOperation): PolicyConfig {
    match op
    case ListUsers => PolicyConfig(INDEX, UserPolicy.EntityName)
    case ShowUser(_) => PolicyConfig(SHOW, UserPolicy.EntityName)
    case CreateUser => PolicyConfig(CREATE, UserPolicy.EntityName)
    case UpdateUser => PolicyConfig(UPDATE, UserPolicy.EntityName)
    case DestroyUser => PolicyConfig(DELETE, UserPolicy.EntityName)
  }

  /** `args.id` as the guard sees it. */
  function ArgsIdOf(op: UsersOperation): JsValue {
    if op.ShowUser? then Str(op.id) else Undefined
  }

  /** The registry once the User policy is registered. */
  function UserRegistry(reg: Registry): Registry {
    AutoRegisterPolicy(reg, Some(UserPolicy.EntityName), UserPolicy.Instance())
  }

  /** The guard in front of the users resolver, for a request made by a row of the user
      table. Because the record id reaches the policy as text, or not at all, the owner
      test never succeeds: a non-administrator is refused every operation, and an
      administrator is allowed every operation, deleting their own account included. */
  lemma UsersResolverGuard(reg: Registry, op: UsersOperation, u: User)
    ensures u.role == ADMIN ==> CanActivate(UserRegistry(reg), Some(ConfigOf(op)), Some(ActorOf(u)), ArgsIdOf(op)) == Ok(true)
    ensures u.role == USER ==> CanActivate(UserRegistry(reg), Some(ConfigOf(op)), Some(ActorOf(u)), ArgsIdOf(op)).Err?
  {
    var cfg := ConfigOf(op);
    var ctx := PolicyContext(Some(ActorOf(u)), GuardResource(cfg.action, ArgsIdOf(op)));
    UserPolicy.RegisteredPolicyAnswers(reg, OperationOf(cfg.action).value, ctx);
  }
}
