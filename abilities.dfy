/** The authorization rules (app/api/lib/abilities.ts): a user's abilities
    are a list of rules `(action, Secret, conditions)` chosen by the chain
    admin / else manager / else nothing. The list is consulted in two ways,
    as in the CASL library the source uses: `Can` asks whether an action is
    granted on the subject type at all (conditions are not looked at), and
    `CanOn` asks whether it is granted on one row, whose `orgId` and
    `userId` must then satisfy the rule's conditions. `CanOn` is also the
    row filter that listing queries apply. */
module Abilities {
  import opened Wrappers
  import opened Auth

  datatype Action = Create | Read | Update | Delete | Manage

  /** Field equalities a Secret row must satisfy; None leaves a field free. */
  datatype Conditions = Conditions(orgId: Option<string>, userId: Option<string>)

  /** A rule on the subject Secret, the only subject the rules name. */
  datatype Rule = Rule(action: Action, conditions: Conditions)

  const Unconditional := Conditions(None, None)

  /** `user.scopes?.includes(scope)`. */
  predicate HasScope(user: AuthUser, scope: string) {
    user.scopes.Some? && scope in user.scopes.value
  }

  function AdminRules(user: AuthUser): seq<Rule> {
    [Rule(Read, Conditions(Some(user.orgId), None)),
     Rule(Create, Unconditional),
     Rule(Update, Conditions(Some(user.orgId), Some(user.id)))]
  }

  function ManagerRules(user: AuthUser): seq<Rule> {
    [Rule(Read, Conditions(Some(user.orgId), None))]
  }

  /** `defineAbilitiesFor(user)`. No rule ever grants `delete` or `manage`,
      and every rule but the unconditional `create` is bound to the user's
      own organization. */
  function DefineAbilitiesFor(user: Option<AuthUser>): (rules: seq<Rule>)
    ensures user.None? ==> rules == []
    ensures forall r :: r in rules ==> r.action != Delete && r.action != Manage
    ensures forall r :: r in rules && r.action != Create ==>
              user.Some? && r.conditions.orgId == Some(user.value.orgId)
  {
    if user.None? then []
    else if HasScope(user.value, "admin") then AdminRules(user.value)
    else if HasScope(user.value, "manager") then ManagerRules(user.value)
    else []   // "viewer", unknown and missing scopes: no rules
  }

  /** A rule applies to an action when it names it or is a `manage` rule. */
  predicate Covers(r: Rule, action: Action) {
    r.action == action || r.action == Manage
  }

  predicate Satisfies(c: Conditions, orgId: string, userId: string) {
    (c.orgId.None? || c.orgId.value == orgId) && (c.userId.None? || c.userId.value == userId)
  }

  /** `ability.can(action, "Secret")`: some rule covers the action. */
  predicate Can(rules: seq<Rule>, action: Action) {
    exists r :: r in rules && Covers(r, action)
  }

  /** `ability.can(action, secret)` for a row with these fields. */
  predicate CanOn(rules: seq<Rule>, action: Action, orgId: string, userId: string) {
    exists r :: r in rules && Covers(r, action) && Satisfies(r.conditions, orgId, userId)
  }

  /** Without a user nothing is granted. */
  lemma NullUserCannot(action: Action, orgId: string, userId: string)
    ensures !Can(DefineAbilitiesFor(None), action)
    ensures !CanOn(DefineAbilitiesFor(None), action, orgId, userId)
  {
  }

  /** An admin may read the rows of their organization, create
      unconditionally, and update the rows they own in their organization;
      nothing else. This holds whatever other scopes they have, so admin
      takes precedence over manager. */
  lemma AdminAbilities(user: AuthUser, orgId: string, userId: string)
    requires HasScope(user, "admin")
    ensures var rules := DefineAbilitiesFor(Some(user));
      && rules == AdminRules(user)
      && Can(rules, Read) && Can(rules, Create) && Can(rules, Update)
      && !Can(rules, Delete) && !Can(rules, Manage)
      && (CanOn(rules, Read, orgId, userId) <==> orgId == user.orgId)
      && CanOn(rules, Create, orgId, userId)
      && (CanOn(rules, Update, orgId, userId) <==> orgId == user.orgId && userId == user.id)
  {
    var rules := DefineAbilitiesFor(Some(user));
    assert Covers(rules[0], Read) && Covers(rules[1], Create) && Covers(rules[2], Update);
    assert Satisfies(rules[1].conditions, orgId, userId);
  }

  /** A manager who is not an admin may read the rows of their organization,
      and neither create nor update. */
  lemma ManagerAbilities(user: AuthUser, orgId: string, userId: string)
    requires !HasScope(user, "admin") && HasScope(user, "manager")
    ensures var rules := DefineAbilitiesFor(Some(user));
      && rules == ManagerRules(user)
      && Can(rules, Read) && !Can(rules, Create) && !Can(rules, Update)
      && !Can(rules, Delete) && !Can(rules, Manage)
      && (CanOn(rules, Read, orgId, userId) <==> orgId == user.orgId)
  {
    var rules := DefineAbilitiesFor(Some(user));
    assert Covers(rules[0], Read);
  }

  /** A viewer, a user with unknown scopes only, and a user whose claims have
      no scopes at all get no rules. */
  lemma OtherScopesGetNothing(user: AuthUser, action: Action)
    requires !HasScope(user, "admin") && !HasScope(user, "manager")
    ensures DefineAbilitiesFor(Some(user)) == []
    ensures !Can(DefineAbilitiesFor(Some(user)), action)
  {
  }

  /** No rule lets anyone read a row of another organization. */
  lemma ReadIsOrgScoped(user: Option<AuthUser>, orgId: string, userId: string)
    requires CanOn(DefineAbilitiesFor(user), Read, orgId, userId)
    ensures user.Some? && orgId == user.value.orgId
  {
  }

  /** Exactly admins may create, and exactly admins and managers may read. */
  lemma CanIffRole(user: Option<AuthUser>)
    ensures Can(DefineAbilitiesFor(user), Create) <==> user.Some? && HasScope(user.value, "admin")
    ensures Can(DefineAbilitiesFor(user), Read) <==>
              user.Some? && (HasScope(user.value, "admin") || HasScope(user.value, "manager"))
  {
    if user.Some? && HasScope(user.value, "admin") {
      AdminAbilities(user.value, "", "");
    } else if user.Some? && HasScope(user.value, "manager") {
      ManagerAbilities(user.value, "", "");
    }
  }
}
