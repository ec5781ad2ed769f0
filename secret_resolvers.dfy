/** The GraphQL resolvers of Secret (app/api/graphql/resolvers/secret.ts):
    the `token` field decrypts on demand, `breachCount` counts BREACH audits,
    `secret` looks a row up by id, `secrets` lists the rows the caller's read
    rule allows, and `createSecret` derives the owner fields from the
    caller's claims before delegating to the vault. The field-level gate in
    front of them is the Permissions module. */
module SecretResolvers {
  import opened Wrappers
  import opened JsString
  import opened Encryption
  import opened Auth
  import opened Abilities
  import opened SecretService

  datatype TokenError = MissingCiphertext | Decryption(cause: CryptoError)

  /** `Secret.token`: refuses a row without both ciphertexts, and otherwise
      is the envelope decryption of the pair. */
  function Token(p: Primitives, env: Env, parent: Secret): (r: Result<string, TokenError>)
    ensures parent.encryptedToken == "" || parent.encryptedDek == "" ==> r == Err(MissingCiphertext)
    ensures parent.encryptedToken != "" && parent.encryptedDek != "" ==>
              var d := EnvelopeDecrypt(p, env, parent.encryptedToken, parent.encryptedDek);
              && (r.Ok? <==> d.Ok?)
              && (r.Ok? ==> r.value == d.value)
              && (r.Err? ==> r.error == Decryption(d.error))
  {
    if parent.encryptedToken == "" || parent.encryptedDek == "" then Err(MissingCiphertext)
    else match EnvelopeDecrypt(p, env, parent.encryptedToken, parent.encryptedDek)
      case Err(err) => Err(Decryption(err))
      case Ok(token) => Ok(token)
  }

  /** A secret the vault created unmasks to the token it was created from. */
  lemma CreatedSecretUnmasks(secrets: seq<Secret>, p: Primitives, env: Env, e: Entropy, id: string,
                             name: string, token: string, userId: string, orgId: string)
    requires Lawful(p) && Truthy(env.masterKey) && WellFormed(e)
    requires NewSecret(secrets, p, env, e, id, name, token, userId, orgId).Ok?
    ensures Token(p, env, NewSecret(secrets, p, env, e, id, name, token, userId, orgId).value) == Ok(token)
  {
    EnvelopeRoundTrip(p, env, token, e);
  }

  /** `audit.count({ where: { secretId, action: "BREACH" } })`. */
  function BreachCount(audits: seq<Audit>, secretId: string): (n: nat)
    ensures n <= |audits|
  {
    if audits == [] then 0
    else
      var last := audits[|audits| - 1];
      BreachCount(audits[..|audits| - 1], secretId) + (if last.secretId == secretId && last.action == BREACH then 1 else 0)
  }

  lemma {:induction false} BreachCountAppend(a: seq<Audit>, b: seq<Audit>, secretId: string)
    ensures BreachCount(a + b, secretId) == BreachCount(a, secretId) + BreachCount(b, secretId)
  {
    if b == [] {
      assert a + b == a;
    } else {
      assert (a + b)[..|a + b| - 1] == a + b[..|b| - 1];
      BreachCountAppend(a, b[..|b| - 1], secretId);
    }
  }

  /** The BREACH audits of one call name each matched row once. */
  lemma {:induction false} BreachCountOfMatches(matches: seq<Secret>, secretId: string)
    requires UniqueIds(matches)
    ensures BreachCount(BreachAudits(matches), secretId) == if exists s :: s in matches && s.id == secretId then 1 else 0
  {
    if matches != [] {
      var front := matches[..|matches| - 1];
      var last := matches[|matches| - 1];
      assert UniqueIds(front);
      BreachCountOfMatches(front, secretId);
      var audits := BreachAudits(matches);
      assert audits == BreachAudits(front) + [BreachAudit(last)];
      assert audits[..|audits| - 1] == BreachAudits(front);
      assert BreachCount(audits, secretId)
             == BreachCount(BreachAudits(front), secretId) + (if last.id == secretId then 1 else 0);
      if last.id == secretId {
        forall s | s in front ensures s.id != secretId {
          var k :| 0 <= k < |front| && front[k] == s;
          assert matches[k] == s;
        }
      }
      assert matches == front + [last];
    }
  }

  /** One `checkBreaches` call raises the breach count of each matched
      secret by exactly one, however often its token was repeated among the
      candidates, and leaves every other count as it was. */
  lemma OneCheckRaisesCountByOne(audits: seq<Audit>, secrets: seq<Secret>, hashes: seq<string>, secretId: string)
    requires UniqueIds(secrets)
    ensures BreachCount(audits + BreachAudits(Matching(secrets, hashes)), secretId)
            == BreachCount(audits, secretId)
               + (if exists s :: s in secrets && s.id == secretId && s.blindIndex in hashes then 1 else 0)
  {
    var matches := Matching(secrets, hashes);
    BreachCountAppend(audits, BreachAudits(matches), secretId);
    MatchingKeepsIdsUnique(secrets, hashes);
    BreachCountOfMatches(matches, secretId);
  }

  /** `Query.secret(id)`: the row with that id, whoever asks; no
      organization filter is applied. */
  function QuerySecret(v: Vault, id: string): (r: Option<Secret>)
    reads v
    ensures r.Some? <==> exists s :: s in v.secrets && s.id == id
    ensures r.Some? ==> r.value in v.secrets && r.value.id == id
  {
    v.GetSecretById(id)
  }

  /** The casl query builder refuses a subject the abilities cannot read at
      all (it raises ForbiddenError instead of building a filter). */
  datatype QueryError = Forbidden

  /** The rows the rules let the caller read, in table order. */
  function Readable(rows: seq<Secret>, rules: seq<Rule>): (r: seq<Secret>)
    ensures forall s :: s in r <==> s in rows && CanOn(rules, Read, s.orgId, s.userId)
  {
    if rows == [] then []
    else
      (if CanOn(rules, Read, rows[0].orgId, rows[0].userId) then [rows[0]] else [])
      + Readable(rows[1..], rules)
  }

  /** `Query.secrets`: [] without a user; otherwise the rows allowed by the
      caller's read rule, the same rule the gate checks. */
  function QuerySecrets(v: Vault, user: Option<AuthUser>): (r: Result<seq<Secret>, QueryError>)
    reads v
    ensures user.None? ==> r == Ok([])
    ensures user.Some? ==> (r.Err? <==> !Can(DefineAbilitiesFor(user), Read))
    ensures user.Some? && r.Ok? ==>
              forall s :: s in r.value <==> s in v.secrets && CanOn(DefineAbilitiesFor(user), Read, s.orgId, s.userId)
  {
    if user.None? then Ok([])
    else
      var rules := DefineAbilitiesFor(user);
      if !Can(rules, Read) then Err(Forbidden) else Ok(Readable(v.secrets, rules))
  }

  /** For an admin or a manager, `secrets` is exactly the rows of their own
      organization; no role sees another organization's rows. */
  lemma SecretsAreOwnOrgRows(v: Vault, user: AuthUser, s: Secret)
    requires HasScope(user, "admin") || HasScope(user, "manager")
    ensures QuerySecrets(v, Some(user)).Ok?
    ensures s in QuerySecrets(v, Some(user)).value <==> s in v.secrets && s.orgId == user.orgId
  {
    CanIffRole(Some(user));
    if HasScope(user, "admin") {
      AdminAbilities(user, s.orgId, s.userId);
    } else {
      ManagerAbilities(user, s.orgId, s.userId);
    }
  }

  const ORG_PREFIX := "org:"

  /** `scopes.find(scope => scope.startsWith("org:"))`. */
  function FindOrgScope(scopes: seq<string>): (r: Option<string>)
    ensures r.None? <==> forall i :: 0 <= i < |scopes| ==> !StartsWith(scopes[i], ORG_PREFIX)
    ensures r.Some? ==> exists i :: 0 <= i < |scopes| && scopes[i] == r.value && StartsWith(r.value, ORG_PREFIX)
                                    && forall j :: 0 <= j < i ==> !StartsWith(scopes[j], ORG_PREFIX)
  {
    if scopes == [] then None
    else if StartsWith(scopes[0], ORG_PREFIX) then Some(scopes[0])
    else
      var r := FindOrgScope(scopes[1..]);
      assert forall j :: 0 < j < |scopes| ==> scopes[j] == scopes[1..][j - 1];
      r
  }

  /** The organization of a new secret: the text between the first and the
      second ':' of the first scope that starts with "org:", or "" when no
      scope does. */
  function ExtractOrgId(scopes: seq<string>): (orgId: string)
    ensures ':' !in orgId
    ensures FindOrgScope(scopes).None? ==> orgId == ""
    ensures FindOrgScope(scopes).Some? ==>
              var scope := FindOrgScope(scopes).value;
              && StartsWith(scope, ORG_PREFIX + orgId)
              && (|scope| == |ORG_PREFIX + orgId| || scope[|ORG_PREFIX + orgId|] == ':')
  {
    match FindOrgScope(scopes)
    case None => ""
    case Some(scope) =>
      OrgIdOfScope(scope);
      Split(scope, ':')[1]
  }

  /** `scope.split(":")[1]` of a scope starting with "org:" is the text up
      to the next ':' or the end. */
  lemma OrgIdOfScope(scope: string)
    requires StartsWith(scope, ORG_PREFIX)
    ensures |Split(scope, ':')| >= 2
    ensures var orgId := Split(scope, ':')[1];
            && ':' !in orgId
            && StartsWith(scope, ORG_PREFIX + orgId)
            && (|scope| == |ORG_PREFIX + orgId| || scope[|ORG_PREFIX + orgId|] == ':')
  {
    assert scope[..|ORG_PREFIX|] == ORG_PREFIX;
    IndexOfUnique(scope, ':', 3);
    SplitAt(scope, ':');
    var rest := scope[|ORG_PREFIX|..];
    SplitFirstPiece(rest, ':');
    var orgId := Split(rest, ':')[0];
    assert Split(scope, ':')[1] == orgId;
    assert scope[..|ORG_PREFIX + orgId|] == ORG_PREFIX + rest[..|orgId|];
  }

  /** `Mutation.createSecret`: the owner is the caller's email (not their
      id) and the organization comes from the caller's scopes. */
  method CreateSecret(v: Vault, p: Primitives, env: Env, e: Entropy, id: string,
                      name: string, token: string, user: AuthUser)
    returns (r: Result<Secret, ServiceError>)
    requires v.Valid() && WellFormed(e) && FindById(v.secrets, id).None?
    requires user.scopes.Some?
    modifies v
    ensures v.Valid() && v.audits == old(v.audits)
    ensures r == NewSecret(old(v.secrets), p, env, e, id, name, token, user.email, ExtractOrgId(user.scopes.value))
    ensures r.Ok? ==> v.secrets == old(v.secrets) + [r.value]
                      && r.value.userId == user.email && r.value.orgId == ExtractOrgId(user.scopes.value)
    ensures r.Err? ==> v.secrets == old(v.secrets)
  {
    var orgId := ExtractOrgId(user.scopes.value);
    r := v.CreateSecret(p, env, e, id, name, token, user.email, orgId);
  }
}
