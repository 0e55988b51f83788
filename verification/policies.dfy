/** The policy registry (policy.service.ts): entity names mapped to policies, and the five
    evaluation calls, which deny by default when no policy is registered for the entity. */
module Policies {
  import opened Wrappers
  import opened UserEntity

  /** A JavaScript value in the id position of a policy context. Policies compare ids
      with `===`, under which a number never equals a string, and `undefined` equals only
      itself; equality of this datatype is exactly that. */
  datatype JsValue = Num(n: int) | Str(s: string) | Undefined

  /** The acting user as the policies read it: its id and its role. */
  datatype Actor = Actor(id: JsValue, role: UserRole)

  /** The actor built from a row of the user table, whose id is a number. */
  function ActorOf(u: User): Actor {
    Actor(Num(u.id), u.role)
  }

  /** The record acted on; only its id is read. */
  datatype Resource = Resource(id: JsValue)

  /** `{ actor, resource }`, either of which may be absent. */
  datatype PolicyContext = PolicyContext(actor: Option<Actor>, resource: Option<Resource>)

  /** `{ value, message? }`. */
  datatype PolicyResult = PolicyResult(value: bool, message: Option<string>)

  /** The five questions a policy answers. */
  datatype Operation = Index | Show | Create | Update | Delete

  /** A policy instance: one rule per operation. */
  datatype Policy = Policy(
    canIndex: PolicyContext -> PolicyResult,
    canShow: PolicyContext -> PolicyResult,
    canCreate: PolicyContext -> PolicyResult,
    canUpdate: PolicyContext -> PolicyResult,
    canDelete: PolicyContext -> PolicyResult)

  function Rule(p: Policy, op: Operation): PolicyContext -> PolicyResult {
    match op
    case Index => p.canIndex
    case Show => p.canShow
    case Create => p.canCreate
    case Update => p.canUpdate
    case Delete => p.canDelete
  }

  type Registry = map<string, Policy>

  const NoPolicyMessage: string := "No policy found for this entity"

  /** getPolicy: the policy registered under the name, if any. */
  function GetPolicy(reg: Registry, entityName: string): Option<Policy> {
    if entityName in reg then Some(reg[entityName]) else None
  }

  /** registerPolicy: afterwards the name yields the new policy, replacing any earlier
      one, and every other name yields what it did before. */
  function RegisterPolicy(reg: Registry, entityName: string, policy: Policy): (r: Registry)
    ensures GetPolicy(r, entityName) == Some(policy)
    ensures forall n :: n != entityName ==> GetPolicy(r, n) == GetPolicy(reg, n)
  {
    reg[entityName := policy]
  }

  /** autoRegisterPolicy: `tag` is the entity name the policy class was decorated with.
      Only a truthy tag registers; a missing or empty one leaves the registry as it was. */
  function AutoRegisterPolicy(reg: Registry, tag: Option<string>, instance: Policy): (r: Registry)
    ensures tag.Some? && tag.value != "" ==> r == RegisterPolicy(reg, tag.value, instance)
    ensures tag.None? || tag.value == "" ==> r == reg
  {
    match tag
    case Some(name) => if name != "" then RegisterPolicy(reg, name, instance) else reg
    case None => reg
  }

  /** canIndex, canShow, canCreate, canUpdate and canDelete, which differ only in the rule
      they consult: with no policy for the entity the answer is a denial carrying
      NoPolicyMessage; otherwise it is the policy's own answer, passed on unchanged. */
  function Evaluate(reg: Registry, op: Operation, entityName: string, ctx: PolicyContext): (r: PolicyResult)
    ensures entityName !in reg ==> !r.value && r.message == Some(NoPolicyMessage)
    ensures entityName in reg ==> r == Rule(reg[entityName], op)(ctx)
  {
    match GetPolicy(reg, entityName)
    case None => PolicyResult(false, Some(NoPolicyMessage))
    case Some(policy) => Rule(policy, op)(ctx)
  }

  /** Registering a policy changes the answers for its entity only. */
  lemma EvaluateAfterRegister(reg: Registry, policy: Policy, entityName: string, op: Operation,
                              other: string, ctx: PolicyContext)
    ensures Evaluate(RegisterPolicy(reg, entityName, policy), op, entityName, ctx) == Rule(policy, op)(ctx)
    ensures other != entityName ==>
      Evaluate(RegisterPolicy(reg, entityName, policy), op, other, ctx) == Evaluate(reg, op, other, ctx)
  {
  }

  /** Deny by default: an empty registry never allows anything. */
  lemma EmptyRegistryDenies(op: Operation, entityName: string, ctx: PolicyContext)
    ensures Evaluate(map[], op, entityName, ctx) == PolicyResult(false, Some(NoPolicyMessage))
  {
  }
}
