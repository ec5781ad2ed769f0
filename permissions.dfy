/** The field-level gate of the GraphQL API (app/api/graphql/permissions.ts).
    Two rules, each computed from the caller's abilities: `isAdmin` passes
    when the abilities can create a Secret, `isManager` when they can read
    one; a rule that does not pass denies with a FORBIDDEN error, HTTP status
    403. The shield maps fields to rules; fields it does not list are let
    through. */
module Permissions {
  import opened Wrappers
  import opened Auth
  import opened Abilities

  datatype Denial = Denial(message: string, code: string, status: nat)

  datatype Outcome = Allow | Deny(denial: Denial)

  const FORBIDDEN := "FORBIDDEN"
  const FORBIDDEN_STATUS: nat := 403

  datatype ShieldRule = IsAdmin | IsManager

  /** The GraphQL fields the shield map names, and all the others. */
  datatype Field = QuerySecret | QuerySecrets | QuerySecretCount | MutationCreateSecret | SecretToken | Unlisted

  /** JavaScript's `a || b` on two rule objects: an object is truthy, so the
      result is always `a`. */
  function OrRules(a: ShieldRule, b: ShieldRule): ShieldRule {
    a
  }

  /** The shield map. The queries are guarded by `isManager || isAdmin`,
      which is the rule `isManager` alone. */
  function FieldRule(f: Field): (r: Option<ShieldRule>)
    ensures r.None? <==> f == Unlisted
    ensures f in {QuerySecret, QuerySecrets, QuerySecretCount} ==> r == Some(IsManager)
    ensures f in {MutationCreateSecret, SecretToken} ==> r == Some(IsAdmin)
  {
    match f
    case QuerySecret => Some(OrRules(IsManager, IsAdmin))
    case QuerySecrets => Some(OrRules(IsManager, IsAdmin))
    case QuerySecretCount => Some(OrRules(IsManager, IsAdmin))
    case MutationCreateSecret => Some(IsAdmin)
    case SecretToken => Some(IsAdmin)
    case Unlisted => None
  }

  /** Evaluating one rule for the caller. */
  function EvalRule(rule: ShieldRule, user: Option<AuthUser>): (r: Outcome)
    ensures r.Deny? ==> r.denial.code == FORBIDDEN && r.denial.status == FORBIDDEN_STATUS
    ensures rule == IsAdmin ==> (r == Allow <==> Can(DefineAbilitiesFor(user), Create))
    ensures rule == IsManager ==> (r == Allow <==> Can(DefineAbilitiesFor(user), Read))
  {
    var abilities := DefineAbilitiesFor(user);
    match rule
    case IsAdmin =>
      if Can(abilities, Create) then Allow
      else Deny(Denial("Only admin users can perform this action", FORBIDDEN, FORBIDDEN_STATUS))
    case IsManager =>
      if Can(abilities, Read) then Allow
      else Deny(Denial("Only manager users can perform this action", FORBIDDEN, FORBIDDEN_STATUS))
  }

  /** The query guard `isManager || isAdmin` evaluates as `isManager` alone,
      for every caller and whatever `isAdmin` says. No caller is affected:
      every admin may also read, so the guard passes exactly when one of the
      two rules would. */
  lemma ManagerOrAdminGuard(user: Option<AuthUser>)
    ensures EvalRule(OrRules(IsManager, IsAdmin), user) == EvalRule(IsManager, user)
    ensures EvalRule(OrRules(IsManager, IsAdmin), user) == Allow
            <==> EvalRule(IsManager, user) == Allow || EvalRule(IsAdmin, user) == Allow
  {
    CanIffRole(user);
  }

  /** Whether the caller may resolve field `f`. Every denial is FORBIDDEN, 403. */
  function Shield(f: Field, user: Option<AuthUser>): (r: Outcome)
    ensures f == Unlisted ==> r == Allow
    ensures r.Deny? ==> r.denial.code == FORBIDDEN && r.denial.status == FORBIDDEN_STATUS
  {
    match FieldRule(f)
    case None => Allow
    case Some(rule) => EvalRule(rule, user)
  }

  /** `createSecret` and `Secret.token` are allowed exactly for admins. */
  lemma AdminFieldsIffAdmin(user: Option<AuthUser>)
    ensures Shield(MutationCreateSecret, user) == Allow <==> user.Some? && HasScope(user.value, "admin")
    ensures Shield(SecretToken, user) == Allow <==> user.Some? && HasScope(user.value, "admin")
  {
    CanIffRole(user);
  }

  /** `secret`, `secrets` and `secretCount` are allowed exactly for admins
      and managers. */
  lemma QueryFieldsIffReader(user: Option<AuthUser>, f: Field)
    requires f in {QuerySecret, QuerySecrets, QuerySecretCount}
    ensures Shield(f, user) == Allow <==>
              user.Some? && (HasScope(user.value, "admin") || HasScope(user.value, "manager"))
  {
    CanIffRole(user);
  }

  /** Without a user every listed field is denied. */
  lemma NullUserDenied(f: Field)
    requires f != Unlisted
    ensures Shield(f, None).Deny?
  {
    CanIffRole(None);
  }
}
