/** The rules for the User entity (user.policy.ts), registered under the name "User".
    Administrators may do everything except delete the account whose id equals theirs;
    other users may only view and update the record whose id is `===` to their own. */
module UserPolicy {
  import opened Wrappers
  import opened UserEntity
  import opened Policies

  const EntityName: string := "User"

  /** `actor?.role === UserRole.ADMIN`. */
  predicate ActorIsAdmin(ctx: PolicyContext) {
    ctx.actor.Some? && ctx.actor.value.role == ADMIN
  }

  /** `actor && resource && actor.id === resource.id`. */
  predicate ActsOnOwnRecord(ctx: PolicyContext) {
    ctx.actor.Some? && ctx.resource.Some? && ctx.actor.value.id == ctx.resource.value.id
  }

  /** `resource?.id`: undefined when there is no resource. */
  function ResourceId(ctx: PolicyContext): JsValue {
    if ctx.resource.Some? then ctx.resource.value.id else Undefined
  }

  /** Who may do what, as one table: listing and creating are for administrators;
      viewing and updating also for the owner of the record; deleting for administrators
      other than the owner of the record. */
  predicate Permitted(op: Operation, ctx: PolicyContext) {
    match op
    case Index => ActorIsAdmin(ctx)
    case Create => ActorIsAdmin(ctx)
    case Show => ActorIsAdmin(ctx) || ActsOnOwnRecord(ctx)
    case Update => ActorIsAdmin(ctx) || ActsOnOwnRecord(ctx)
    case Delete => ActorIsAdmin(ctx) && ctx.actor.value.id != ResourceId(ctx)
  }

  /** The message of the denial each rule gives. */
  function DenialMessage(op: Operation, ctx: PolicyContext): string {
    match op
    case Index => "You do not have permission to view users list"
    case Create => "You do not have permission to create users"
    case Show => "You do not have permission to view this user"
    case Update => "You do not have permission to update this user"
    case Delete =>
      if ActorIsAdmin(ctx) then "You cannot delete your own account"
      else "You do not have permission to delete users"
  }

  /** A rule's answer agrees with the table, and a denial carries its message. */
  predicate Answers(op: Operation, ctx: PolicyContext, r: PolicyResult) {
    && (r.value <==> Permitted(op, ctx))
    && (r.value ==> r.message.None?)
    && (!r.value ==> r.message == Some(DenialMessage(op, ctx)))
  }

  const Allow: PolicyResult := PolicyResult(true, None)

  function Deny(message: string): PolicyResult {
    PolicyResult(false, Some(message))
  }

  function CanIndex(ctx: PolicyContext): (r: PolicyResult)
    ensures Answers(Index, ctx, r)
  {
    if ctx.actor.Some? && ctx.actor.value.role == ADMIN then Allow
    else Deny("You do not have permission to view users list")
  }

  function CanShow(ctx: PolicyContext): (r: PolicyResult)
    ensures Answers(Show, ctx, r)
  {
    if ctx.actor.Some? && ctx.actor.value.role == ADMIN then Allow
    else if ctx.actor.Some? && ctx.resource.Some? && ctx.actor.value.id == ctx.resource.value.id then Allow
    else Deny("You do not have permission to view this user")
  }

  function CanCreate(ctx: PolicyContext): (r: PolicyResult)
    ensures Answers(Create, ctx, r)
  {
    if ctx.actor.Some? && ctx.actor.value.role == ADMIN then Allow
    else Deny("You do not have permission to create users")
  }

  function CanUpdate(ctx: PolicyContext): (r: PolicyResult)
    ensures Answers(Update, ctx, r)
  {
    if ctx.actor.Some? && ctx.actor.value.role == ADMIN then Allow
    else if ctx.actor.Some? && ctx.resource.Some? && ctx.actor.value.id == ctx.resource.value.id then Allow
    else Deny("You do not have permission to update this user")
  }

  function CanDelete(ctx: PolicyContext): (r: PolicyResult)
    ensures Answers(Delete, ctx, r)
  {
    if ctx.actor.Some? && ctx.actor.value.role == ADMIN then
      if ctx.actor.value.id == (if ctx.resource.Some? then ctx.resource.value.id else Undefined) then
        Deny("You cannot delete your own account")
      else Allow
    else Deny("You do not have permission to delete users")
  }

  /** The policy instance the registry holds. */
  function Instance(): Policy {
    Policy(CanIndex, CanShow, CanCreate, CanUpdate, CanDelete)
  }

  lemma InstanceAnswers(op: Operation, ctx: PolicyContext)
    ensures Answers(op, ctx, Rule(Instance(), op)(ctx))
  {
  }

  /** A user who is not an administrator (or no user at all) may never list, create or
      delete users, whatever the resource. */
  lemma NonAdminNeverListsCreatesOrDeletes(ctx: PolicyContext)
    requires !ActorIsAdmin(ctx)
    ensures !CanIndex(ctx).value && !CanCreate(ctx).value && !CanDelete(ctx).value
  {
  }

  /** Without an actor every rule denies. */
  lemma AbsentActorDenied(op: Operation, ctx: PolicyContext)
    requires ctx.actor.None?
    ensures !Rule(Instance(), op)(ctx).value
  {
    InstanceAnswers(op, ctx);
  }

  /** Every denial explains itself with a non-empty message; an allow carries none. */
  lemma DenialsCarryMessages(op: Operation, ctx: PolicyContext)
    ensures var r := Rule(Instance(), op)(ctx);
      (r.value <==> r.message.None?) && (!r.value ==> r.message.value != "")
  {
    InstanceAnswers(op, ctx);
  }

  /** An administrator deleting the record with their own id is refused with its own
      message; any other record may be deleted. */
  lemma AdminDeletesOthersOnly(ctx: PolicyContext)
    requires ActorIsAdmin(ctx)
    ensures CanDelete(ctx).value <==> ctx.actor.value.id != ResourceId(ctx)
    ensures !CanDelete(ctx).value ==> CanDelete(ctx).message == Some("You cannot delete your own account")
  {
  }

  /** `===` never equates a number with a string: a user whose id is a number is refused
      their own record when the record's id arrives as text. */
  lemma TextIdIsNotOwnId(u: User, text: string, op: Operation)
    requires u.role == USER && (op == Show || op == Update)
    ensures !Rule(Instance(), op)(PolicyContext(Some(ActorOf(u)), Some(Resource(Str(text))))).value
  {
    InstanceAnswers(op, PolicyContext(Some(ActorOf(u)), Some(Resource(Str(text)))));
  }

  /** With the policy registered under its entity name, the registry answers every
      question as the table says. */
  lemma RegisteredPolicyAnswers(reg: Registry, op: Operation, ctx: PolicyContext)
    ensures var r := Evaluate(AutoRegisterPolicy(reg, Some(EntityName), Instance()), op, EntityName, ctx);
      Answers(op, ctx, r)
  {
    InstanceAnswers(op, ctx);
  }
}
