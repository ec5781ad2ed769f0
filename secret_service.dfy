/** The vault service (app/api/services/secret.service.ts): a `secrets`
    table and an append-only `audits` log, kept in memory in place of the
    database. A secret is stored encrypted, with its blind index; the
    plaintext token is not a column. Row ids are assigned by the database;
    here the caller supplies a fresh one. Rows are kept in insertion
    order, and queries are taken to return them in that order; the database
    promises no order without `orderBy`, so this is a modelling choice. */
module SecretService {
  import opened Wrappers
  import opened JsString
  import opened Encryption
  import opened Seqs

  datatype Secret = Secret(
    id: string,
    name: string,
    encryptedToken: string,
    encryptedDek: string,
    blindIndex: string,
    userId: string,
    orgId: string)

  datatype Audit = Audit(secretId: string, userId: string, orgId: string, action: string, details: string)

  const BREACH := "BREACH"
  const BREACH_DETAILS := "Secret token found in breach database"
  const MIN_TOKEN_LENGTH: nat := 16
  const SHORT_TOKEN_MESSAGE := "The secret token must be at least 16 characters long"

  /** A rejected request (GraphQL code BAD_USER_INPUT, status 400), a missing
      row, or an error of the encryption layer. */
  datatype ServiceError = BadUserInput(message: string) | NotFound | Crypto(cause: CryptoError)

  function DuplicateNameMessage(name: string): string {
    "A secret with the name \"" + name + "\" already exists"
  }

  datatype BreachReport = BreachReport(totalChecked: nat, breachesFound: nat, updatedSecrets: seq<string>)

  ghost predicate UniqueIds(secrets: seq<Secret>) {
    forall i, j :: 0 <= i < j < |secrets| ==> secrets[i].id != secrets[j].id
  }

  /** `findUnique({ where: { id } })`. */
  function FindById(secrets: seq<Secret>, id: string): (r: Option<Secret>)
    ensures r.Some? <==> exists s :: s in secrets && s.id == id
    ensures r.Some? ==> r.value in secrets && r.value.id == id
  {
    if secrets == [] then None
    else if secrets[0].id == id then Some(secrets[0])
    else FindById(secrets[1..], id)
  }

  /** `findFirst({ where: { name, userId } })` finds a row. */
  predicate NameTaken(secrets: seq<Secret>, name: string, userId: string) {
    exists s :: s in secrets && s.name == name && s.userId == userId
  }

  /** The row `createSecret` would insert, or the error it raises: a token
      shorter than 16 code units, then a row with the same name and userId
      (orgId plays no part), then a missing master key or pepper. */
  function NewSecret(secrets: seq<Secret>, p: Primitives, env: Env, e: Entropy, id: string,
                     name: string, token: string, userId: string, orgId: string): (r: Result<Secret, ServiceError>)
    requires WellFormed(e)
    ensures JsLength(token) < MIN_TOKEN_LENGTH ==> r == Err(BadUserInput(SHORT_TOKEN_MESSAGE))
    ensures JsLength(token) >= MIN_TOKEN_LENGTH && NameTaken(secrets, name, userId) ==>
              r == Err(BadUserInput(DuplicateNameMessage(name)))
    ensures r.Ok? ==>
              && JsLength(token) >= MIN_TOKEN_LENGTH && !NameTaken(secrets, name, userId)
              && r.value.id == id && r.value.name == name
              && r.value.userId == userId && r.value.orgId == orgId
              && Ok(r.value.blindIndex) == HashWithPepper(p, env, token)
              && Ok(Envelope(r.value.encryptedToken, r.value.encryptedDek)) == EnvelopeEncrypt(p, env, token, e)
    ensures Lawful(p) && Truthy(env.masterKey) && Truthy(env.pepper) ==>
              (r.Ok? <==> JsLength(token) >= MIN_TOKEN_LENGTH && !NameTaken(secrets, name, userId))
  {
    if JsLength(token) < MIN_TOKEN_LENGTH then Err(BadUserInput(SHORT_TOKEN_MESSAGE))
    else if NameTaken(secrets, name, userId) then Err(BadUserInput(DuplicateNameMessage(name)))
    else match EnvelopeEncrypt(p, env, token, e)
      case Err(err) => Err(Crypto(err))
      case Ok(envelope) =>
        match HashWithPepper(p, env, token)
        case Err(err) => Err(Crypto(err))
        case Ok(blindIndex) =>
          Ok(Secret(id, name, envelope.encryptedToken, envelope.encryptedDek, blindIndex, userId, orgId))
  }

  /** The bound is inclusive: a token of exactly 16 code units is stored,
      one of 15 is refused. */
  lemma SixteenIsEnough(secrets: seq<Secret>, p: Primitives, env: Env, e: Entropy, id: string,
                        name: string, token: string, userId: string, orgId: string)
    requires Lawful(p) && Truthy(env.masterKey) && Truthy(env.pepper) && WellFormed(e)
    requires !NameTaken(secrets, name, userId)
    ensures JsLength(token) == 16 ==> NewSecret(secrets, p, env, e, id, name, token, userId, orgId).Ok?
    ensures JsLength(token) == 15 ==> NewSecret(secrets, p, env, e, id, name, token, userId, orgId).Err?
  {
  }

  /** `potentialBreaches.map(hashWithPepper)`: fails only when there is
      something to hash and the pepper is missing. */
  function HashAll(p: Primitives, env: Env, tokens: seq<string>): (r: Result<seq<string>, CryptoError>)
    ensures r.Err? <==> tokens != [] && !Truthy(env.pepper)
    ensures r.Ok? ==> |r.value| == |tokens|
    ensures r.Ok? ==> forall i :: 0 <= i < |tokens| ==> Ok(r.value[i]) == HashWithPepper(p, env, tokens[i])
  {
    if tokens == [] then Ok([])
    else match HashWithPepper(p, env, tokens[0])
      case Err(err) => Err(err)
      case Ok(h) =>
        match HashAll(p, env, tokens[1..])
        case Err(err) => Err(err)
        case Ok(rest) => Ok([h] + rest)
  }

  /** `findMany({ where: { blindIndex: { in: hashes } } })`: the rows whose
      blind index is one of the hashes, in table order. */
  function Matching(secrets: seq<Secret>, hashes: seq<string>): (r: seq<Secret>)
    ensures |r| <= |secrets|
    ensures forall s :: s in r <==> s in secrets && s.blindIndex in hashes
  {
    if secrets == [] then []
    else (if secrets[0].blindIndex in hashes then [secrets[0]] else []) + Matching(secrets[1..], hashes)
  }

  /** The matches depend on the hashes only as a set: repeating a hash, or
      reordering them, changes nothing. */
  lemma {:induction false} MatchingDependsOnSetOnly(secrets: seq<Secret>, h1: seq<string>, h2: seq<string>)
    requires forall h :: h in h1 <==> h in h2
    ensures Matching(secrets, h1) == Matching(secrets, h2)
  {
    if secrets != [] {
      MatchingDependsOnSetOnly(secrets[1..], h1, h2);
    }
  }

  /** The matching rows of a table with distinct ids have distinct ids. */
  lemma {:induction false} MatchingKeepsIdsUnique(secrets: seq<Secret>, hashes: seq<string>)
    requires UniqueIds(secrets)
    ensures UniqueIds(Matching(secrets, hashes))
  {
    if secrets != [] {
      assert UniqueIds(secrets[1..]);
      MatchingKeepsIdsUnique(secrets[1..], hashes);
      var rest := Matching(secrets[1..], hashes);
      forall s | s in rest ensures s.id != secrets[0].id {
        var k :| 0 <= k < |secrets[1..]| && secrets[1..][k] == s;
        assert secrets[k + 1] == s;
      }
    }
  }

  function BreachAudit(s: Secret): Audit {
    Audit(s.id, s.userId, s.orgId, BREACH, BREACH_DETAILS)
  }

  /** One BREACH audit per matched row, in match order. */
  function BreachAudits(matches: seq<Secret>): (r: seq<Audit>)
    ensures |r| == |matches|
    ensures forall i :: 0 <= i < |r| ==> r[i] == BreachAudit(matches[i])
  {
    if matches == [] then [] else BreachAudits(matches[..|matches| - 1]) + [BreachAudit(matches[|matches| - 1])]
  }

  /** The ids of the matched rows, in match order. */
  function Ids(matches: seq<Secret>): (r: seq<string>)
    ensures |r| == |matches|
    ensures forall i :: 0 <= i < |r| ==> r[i] == matches[i].id
  {
    if matches == [] then [] else Ids(matches[..|matches| - 1]) + [matches[|matches| - 1].id]
  }

  lemma BreachAuditsStep(matches: seq<Secret>, i: nat)
    requires i < |matches|
    ensures BreachAudits(matches[..i + 1]) == BreachAudits(matches[..i]) + [BreachAudit(matches[i])]
  {
    PrefixStep(matches, i);
  }

  lemma IdsStep(matches: seq<Secret>, i: nat)
    requires i < |matches|
    ensures Ids(matches[..i + 1]) == Ids(matches[..i]) + [matches[i].id]
  {
    PrefixStep(matches, i);
  }

  /** The table after `delete({ where: { id } })`. */
  function RemoveById(secrets: seq<Secret>, id: string): (r: seq<Secret>)
    ensures forall s :: s in r <==> s in secrets && s.id != id
    ensures |r| <= |secrets|
  {
    if secrets == [] then []
    else (if secrets[0].id == id then [] else [secrets[0]]) + RemoveById(secrets[1..], id)
  }

  /** Deleting a present id removes exactly one row. */
  lemma {:induction false} RemoveByIdRemovesOne(secrets: seq<Secret>, id: string)
    requires UniqueIds(secrets) && FindById(secrets, id).Some?
    ensures |RemoveById(secrets, id)| == |secrets| - 1
  {
    assert UniqueIds(secrets[1..]);
    if secrets[0].id == id {
      assert RemoveById(secrets[1..], id) == secrets[1..] by {
        RemoveByIdAbsent(secrets[1..], id);
      }
    } else {
      RemoveByIdRemovesOne(secrets[1..], id);
    }
  }

  /** Deleting an absent id changes nothing. */
  lemma {:induction false} RemoveByIdAbsent(secrets: seq<Secret>, id: string)
    requires forall s :: s in secrets ==> s.id != id
    ensures RemoveById(secrets, id) == secrets
  {
    if secrets != [] {
      RemoveByIdAbsent(secrets[1..], id);
      assert secrets == [secrets[0]] + secrets[1..];
    }
  }

  /** `SecretService` over the two tables. */
  class Vault {
    var secrets: seq<Secret>
    var audits: seq<Audit>

    ghost predicate Valid()
      reads this
    {
      UniqueIds(secrets)
    }

    constructor ()
      ensures Valid() && secrets == [] && audits == []
    {
      secrets := [];
      audits := [];
    }

    /** `getSecretById(id)`: the row with that id, or null. */
    function GetSecretById(id: string): (r: Option<Secret>)
      reads this
      ensures r.Some? <==> exists s :: s in secrets && s.id == id
      ensures r.Some? ==> r.value in secrets && r.value.id == id
    {
      FindById(secrets, id)
    }

    /** `getAllSecrets()`. */
    function GetAllSecrets(): seq<Secret>
      reads this
    {
      secrets
    }

    /** `getSecretCount()`: the number of rows `getAllSecrets()` returns. */
    function GetSecretCount(): (n: nat)
      reads this
      ensures n == |GetAllSecrets()|
    {
      |secrets|
    }

    /** `createSecret(data)`: on success exactly one row is appended; on any
        error nothing changes. */
    method CreateSecret(p: Primitives, env: Env, e: Entropy, id: string,
                        name: string, token: string, userId: string, orgId: string)
      returns (r: Result<Secret, ServiceError>)
      requires Valid() && WellFormed(e)
      requires FindById(secrets, id).None?
      modifies this
      ensures Valid()
      ensures r == NewSecret(old(secrets), p, env, e, id, name, token, userId, orgId)
      ensures r.Ok? ==> secrets == old(secrets) + [r.value]
      ensures r.Err? ==> secrets == old(secrets)
      ensures audits == old(audits)
    {
      r := NewSecret(secrets, p, env, e, id, name, token, userId, orgId);
      if r.Ok? {
        secrets := secrets + [r.value];
      }
    }

    /** `checkBreaches(potentialBreaches)`: hash the candidates, find the
        rows whose blind index is among the hashes, and append one BREACH
        audit per such row. The secrets table never changes. */
    method CheckBreaches(p: Primitives, env: Env, candidates: seq<string>)
      returns (r: Result<BreachReport, CryptoError>)
      requires Valid()
      modifies this
      ensures Valid() && secrets == old(secrets)
      ensures r.Err? <==> HashAll(p, env, candidates).Err?
      ensures r.Err? ==> audits == old(audits)
      ensures r.Ok? ==>
                var matches := Matching(secrets, HashAll(p, env, candidates).value);
                && audits == old(audits) + BreachAudits(matches)
                && r.value == BreachReport(|candidates|, |matches|, Ids(matches))
    {
      var hashed := HashAll(p, env, candidates);
      if hashed.Err? {
        return Err(hashed.error);
      }
      var matches := Matching(secrets, hashed.value);
      var updatedSecretIds: seq<string> := [];
      var i := 0;
      while i < |matches|
        invariant 0 <= i <= |matches|
        invariant secrets == old(secrets)
        invariant audits == old(audits) + BreachAudits(matches[..i])
        invariant updatedSecretIds == Ids(matches[..i])
      {
        BreachAuditsStep(matches, i);
        IdsStep(matches, i);
        AppendAssoc(old(audits), BreachAudits(matches[..i]), [BreachAudit(matches[i])]);
        audits := audits + [BreachAudit(matches[i])];
        updatedSecretIds := updatedSecretIds + [matches[i].id];
        i := i + 1;
      }
      assert matches[..i] == matches;
      r := Ok(BreachReport(|candidates|, |matches|, updatedSecretIds));
    }

    /** `deleteSecret(id)`: removes the row with that id and returns it; an
        absent id is an error and changes nothing. */
    method DeleteSecret(id: string) returns (r: Result<Secret, ServiceError>)
      requires Valid()
      modifies this
      ensures Valid() && audits == old(audits)
      ensures r.Err? <==> FindById(old(secrets), id).None?
      ensures r.Err? ==> r.error == NotFound && secrets == old(secrets)
      ensures r.Ok? ==> Some(r.value) == FindById(old(secrets), id) && secrets == RemoveById(old(secrets), id)
    {
      var found := FindById(secrets, id);
      if found.None? {
        return Err(NotFound);
      }
      RemoveByIdKeepsUnique(secrets, id);
      secrets := RemoveById(secrets, id);
      r := Ok(found.value);
    }
  }

  lemma {:induction false} RemoveByIdKeepsUnique(secrets: seq<Secret>, id: string)
    requires UniqueIds(secrets)
    ensures UniqueIds(RemoveById(secrets, id))
  {
    if secrets != [] {
      assert UniqueIds(secrets[1..]);
      RemoveByIdKeepsUnique(secrets[1..], id);
      var rest := RemoveById(secrets[1..], id);
      forall s | s in rest ensures s.id != secrets[0].id {
        var k :| 0 <= k < |secrets[1..]| && secrets[1..][k] == s;
        assert secrets[k + 1] == s;
      }
    }
  }
}
