# Secret-protection backend of a chat-and-vault application, in Dafny

This project models the part of the application that keeps API tokens and
similar secrets out of chat traffic. Users store secrets in a vault. Every
chat message is scanned for words that might be one of those secrets
before it is forwarded to a language model. The model covers five parts.

- **Wire format and blind index** (`Encryption`, `Hex`, `Utf8`).
  - Envelope encryption under a per-secret data key (DEK), with the DEK
    encrypted under a master key.
  - The `hex(iv) ++ hex(tag) ++ hex(ciphertext)` framing, with a 16-byte IV
    and a 16-byte tag.
  - The peppered SHA-256 blind index.
  - SHA-256 and AES-256-GCM are fields of a `Primitives` value. The ghost
    predicate `Lawful` gathers what the code relies on:
    - the digest is 32 bytes;
    - the tag is 16 bytes;
    - opening inverts sealing;
    - a wrong 16-byte tag fails.
  - `LawfulIsSatisfiable` shows these laws are consistent.
  - Random DEKs and IVs are inputs (`Entropy`). Environment variables are
    `Env`.
- **Authorization** (`Abilities`, `Permissions`).
  - The role-to-rule table as a list of `Rule`s.
  - casl's two queries: `Can`, which ignores conditions, and `CanOn`, which
    checks them against one row.
  - The graphql-shield field map with its two rules.
- **Vault** (`SecretService`, `SecretResolvers`).
  - A `Vault` class whose `secrets` table and append-only `audits` log are
    `seq` fields.
  - The GraphQL resolvers that read the vault: `token`, `breachCount`,
    `secret` and `secrets`, plus the owner derivation of `createSecret`.
- **Interception pipeline** (`Messages`).
  - The candidate tokenizer.
  - The message log as a class.
  - The reply stream as a method with the source's two nested loops.
  - The stream is proved against the specification functions
    `StreamChunks` and `BodyChunks`.
  - The language model's endpoint is a `Downstream` value. `JSON.parse` is
    an oracle.
- **Request gating** (`Auth`, `Proxy`).
  - Choosing the bearer token.
  - Building the request context.
  - The page guard of the web front end.

JavaScript semantics are written out where they matter (`JsString`):
- `length` counts UTF-16 code units;
- `trim` strips the ECMAScript whitespace set;
- `split` keeps empty pieces;
- `slice` clamps its bounds;
- `""` is falsy like a missing value.

`String(n)` is `Decimal.NatToString`.

Some behaviour of the code is easy to misread; the model follows the code:
- The page guard treats an empty `token` cookie
  like a missing one. So the guard looks at whether the value is empty,
  not only whether it is present.
- `isManager || isAdmin` in the shield map is plain JavaScript `||` on two
  rule objects, so it is the rule `isManager` alone. Every admin may also
  read, so no caller is treated differently
  (`Permissions.ManagerOrAdminGuard`).
- The vault's length check counts UTF-16 code units, so a 16-character
  token of astral-plane characters is 32 units long.
- `Mutation.createSecret` takes the caller's `scopes` as a declared
  `string[]`. `SecretResolvers.CreateSecret` requires them to be present,
  which the shield's admin rule in front of it already ensures.

## Model

| member | source | states |
|---|---|---|
| Hex.HexValue | app/api/lib/encryption.ts:46-47 | a value in 0..15 exactly for the digits 0-9, a-f and A-F; -1 for every other character |
| Hex.HexValueIgnoresCase | app/api/lib/encryption.ts:46-47 | an upper-case digit reads as the same value as its lower-case form |
| Hex.HexValueOfDigit | app/api/lib/encryption.ts:46-47 | every digit the encoder writes reads back as its value |
| Hex.HexEncode | app/api/lib/encryption.ts:34 | `toString("hex")` writes exactly two lower-case hex digits per byte |
| Hex.HexDecode | app/api/lib/encryption.ts:46-47 | `Buffer.from(s,"hex")` yields at most one byte per two characters |
| Hex.HexEncodeAppend | app/api/lib/encryption.ts:34 | encoding a concatenation is the concatenation of the encodings |
| Hex.HexDecodeStep | app/api/lib/encryption.ts:80 | a leading pair written by the encoder decodes to its byte, then decoding continues |
| Hex.HexDecodeEncodeThen | app/api/lib/encryption.ts:80 | decoding an encoding followed by any text gives the bytes back, then the decoding of that text |
| Hex.HexRoundTrip | app/api/lib/encryption.ts:79-80 | `Buffer.from(b.toString("hex"),"hex") == b` for every byte string |
| Utf8.EncodeChar | app/api/lib/encryption.ts:28 | a code point takes one to four bytes |
| Utf8.Encode | app/api/lib/encryption.ts:28 | a string takes at least one byte per code point |
| Utf8.DecodeFirst | app/api/lib/encryption.ts:52-53 | a decoded code point consumes between one byte and all of the input |
| Utf8.DecodeFirstEncodeChar | app/api/lib/encryption.ts:52-53 | the first code point of an encoding decodes back, consuming exactly its encoding |
| Utf8.Decode | app/api/lib/encryption.ts:52-53 | strict decoding of the deciphered bytes: None for malformed UTF-8, otherwise a string with no more code points than there were bytes |
| Utf8.DecodeEncode | app/api/lib/encryption.ts:52-53 | decoding the UTF-8 encoding of any string gives that string |
| JsString.Truthy | app/web/proxy.ts:20 | no contract; JavaScript truthiness of a string that may be missing: `undefined`, `null` and "" are falsy, every other string is truthy; the same test is written `!x` at app/api/lib/encryption.ts:11 and :90, app/api/lib/auth.ts:30 and app/api/graphql/resolvers/secret.ts:11 |
| JsString.JsLength | app/api/services/secret.service.ts:26 | `length` is at least the number of code points and at most twice it |
| JsString.JsLengthAppend | app/api/services/secret.service.ts:26 | `length` of a concatenation is the sum of the lengths |
| JsString.JsLengthOfNarrow | app/api/lib/encryption.ts:52 | a string of Basic Multilingual Plane characters has as many code units as characters |
| JsString.LeadingWhitespace | app/api/services/message.service.ts:17 | the count of leading characters that are all whitespace and are followed by a non-whitespace character or the end |
| JsString.LeadingWhitespaceAt | app/api/services/message.service.ts:17 | that count is the only position with this property |
| JsString.TrimStart | app/api/services/message.service.ts:17 | the result is a suffix not starting with whitespace, and everything dropped was whitespace |
| JsString.TrimEnd | app/api/services/message.service.ts:17 | the result is a prefix not ending with whitespace, and everything dropped was whitespace |
| JsString.Trim | app/api/services/message.service.ts:17 | `s.trim()` is the run of `s` that starts after its leading whitespace, and it neither starts nor ends with whitespace |
| JsString.TrimStartAppend | app/api/services/message.service.ts:17 | once a non-blank string is left-trimmed, what follows it is kept unchanged |
| JsString.TrimDropsTrailingBreak | app/api/services/message.service.ts:17 | `(s + "\n").trim() == s.trim()` for a non-blank `s` |
| JsString.SuffixShorter | app/api/services/message.service.ts:17 | a suffix is never longer in code units than the string |
| JsString.PrefixShorter | app/api/services/message.service.ts:17 | a prefix is never longer in code units than the string |
| JsString.TrimShortens | app/api/services/message.service.ts:17 | `s.trim().length <= s.length` |
| JsString.TrimEmptyIffBlank | app/api/services/message.service.ts:98 | `trim()` is empty exactly when every character is whitespace (both directions) |
| JsString.IndexOf | app/api/services/message.service.ts:16 | the first position holding the character, or the length when it does not occur |
| JsString.IndexOfUnique | app/api/services/message.service.ts:16 | that position is the only one with this property |
| JsString.Split | app/api/services/message.service.ts:16 | `split` always returns at least one piece |
| JsString.SplitAt | app/api/services/message.service.ts:16 | the first piece ends at the first separator and the rest is split on its own |
| JsString.JoinSplit | app/api/services/message.service.ts:16 | joining the pieces with the separator gives the input back |
| JsString.SplitPiecesFree | app/api/services/message.service.ts:16 | no piece contains the separator |
| JsString.SplitNoSeparator | app/api/services/message.service.ts:16 | a string without the separator is a single piece |
| JsString.SplitConcat | app/api/services/message.service.ts:98 | splitting `a + sep + b` gives the pieces of `a` followed by those of `b` |
| JsString.SplitAfterPiece | app/api/graphql/resolvers/secret.ts:80 | a separator-free prefix followed by the separator is the first piece |
| JsString.SplitFirstPiece | app/api/graphql/resolvers/secret.ts:80 | the first piece is the text up to the first separator, or all of it if there is none |
| JsString.Slice | app/api/lib/encryption.ts:39-44 | `slice` never exceeds the string, and agrees with indexing when the bounds fit |
| JsString.StartsWith | app/web/proxy.ts:12-13 | no contract; `s.startsWith(prefix)`: `s` begins with the characters of `prefix`; the same call is made at app/api/lib/auth.ts:32 and app/api/graphql/resolvers/secret.ts:78 |
| Decimal.NatToString | app/api/services/message.service.ts:27 | `String(n)` is a non-empty digit string without a leading zero |
| Decimal.ParseNatToString | app/api/services/message.service.ts:27 | reading `String(n)` back as a number gives `n` |
| Decimal.NatToStringInjective | app/api/services/message.service.ts:27 | distinct numbers have distinct renderings |
| Encryption.LawfulIsSatisfiable | app/api/lib/encryption.ts:3-6 | some primitives satisfy every assumed law of the hash and the cipher |
| Encryption.GetMasterKey | app/api/lib/encryption.ts:9-16 | an error exactly when the variable is missing or empty; otherwise a 32-byte key, whatever the variable's length |
| Encryption.Frame | app/api/lib/encryption.ts:34 | the concatenation `hex(iv) ++ hex(authTag) ++ hex(ct)` is the hex of the bytes iv ++ tag ++ ct |
| Encryption.CiphertextHex | app/api/lib/encryption.ts:44 | `slice((16 + 16) * 2)`: the text from offset 64, and "" for a shorter string |
| Encryption.Unframe | app/api/lib/encryption.ts:39-47 | the slices at 0, 32 and 64, hex-decoded: an IV and a tag of at most 16 bytes each, and a ciphertext of at most half the string |
| Encryption.FramingRoundTrip | app/api/lib/encryption.ts:34-44 | slicing `hex(iv)++hex(tag)++hex(ct)` at offsets 32 and 64 gives back iv, tag and ct exactly |
| Encryption.Encrypt | app/api/lib/encryption.ts:24-35 | fails exactly for a key that is not 32 bytes; otherwise the value is `Frame(iv, tag, ct)`: the given IV, then the 16-byte tag and the ciphertext that sealing the UTF-8 bytes produced, all as lower-case hex of at least 64 characters |
| Encryption.EncryptUnframes | app/api/lib/encryption.ts:24-47 | the fixed offsets read an `encrypt` result back as the IV it was given and the tag and ciphertext the cipher produced |
| Encryption.HexEncodeUnits | app/api/lib/encryption.ts:34 | the hex of n bytes is 2n UTF-16 code units long |
| Encryption.FrameCiphertextHex | app/api/lib/encryption.ts:34-44 | the text after offset 64 of a frame is the ciphertext's hex |
| Encryption.CiphertextHexAppend | app/api/lib/encryption.ts:44 | text appended to a frame lands in its ciphertext part |
| Encryption.Decrypt | app/api/lib/encryption.ts:38-56 | a key that is not 32 bytes is refused; otherwise ciphertext hex of an odd number of code units is refused, and exactly then; text comes back only from even-length hex |
| Encryption.OddHexRejected | app/api/lib/encryption.ts:52 | an odd-length ciphertext part is refused under a 32-byte key, whatever the rest of the frame |
| Encryption.EncryptDecrypt | app/api/lib/encryption.ts:24-56 | `decrypt(encrypt(d, k), k) == d` for a 32-byte key |
| Encryption.AppendedCharacterRejected | app/api/lib/encryption.ts:44-52 | an authentic frame with one more character appended is refused for odd-length hex, never decrypted |
| Encryption.TamperedTagFails | app/api/lib/encryption.ts:38-56 | a frame whose 16-byte tag was replaced fails with an integrity error and never yields text |
| Encryption.EnvelopeEncrypt | app/api/lib/encryption.ts:59-70 | a missing master key is an error and produces no ciphertext; otherwise it succeeds |
| Encryption.EnvelopeDecrypt | app/api/lib/encryption.ts:73-85 | a missing master key is an error |
| Encryption.DekHexRoundTrip | app/api/lib/encryption.ts:67-80 | a 32-byte DEK travels as 64 hex characters and decodes back unchanged |
| Encryption.EnvelopeRoundTrip | app/api/lib/encryption.ts:59-85 | `envelopeDecrypt(envelopeEncrypt(t)) == t` under a fixed, configured master key |
| Encryption.GetPepper | app/api/lib/encryption.ts:88-94 | an error exactly when the pepper is missing or empty; otherwise the pepper itself |
| Encryption.HashWithPepper | app/api/lib/encryption.ts:97-107 | an error exactly when the pepper is missing; otherwise lower-case hex, 64 characters long |
| Encryption.HashDependsOnPepperOnly | app/api/lib/encryption.ts:97-107 | the blind index is determined by token and pepper; the master key plays no part |
| Encryption.VerifyHashWithPepper | app/api/lib/encryption.ts:110-113 | true exactly when the hash equals `hashWithPepper(token)`; an error without a pepper |
| Encryption.VerifyOwnHash | app/api/lib/encryption.ts:110-113 | `verifyHashWithPepper(t, hashWithPepper(t))` holds |
| Auth.BearerToken | app/api/lib/auth.ts:27-35 | a non-empty cookie wins; otherwise the header counts only when it starts with "Bearer ", and the token is what follows; an empty token is no token |
| Auth.GetAuthContext | app/api/lib/auth.ts:19-48 | `req`/`res` pass through; the user is the verified claims of the token, and null when there is no token or verification fails |
| Auth.CookieTakesPrecedence | app/api/lib/auth.ts:27-35 | with a non-empty cookie the header is irrelevant |
| Abilities.HasScope | app/api/lib/abilities.ts:21-28 | no contract; `user.scopes?.includes(scope)`: false when the scopes are missing, otherwise membership |
| Abilities.DefineAbilitiesFor | app/api/lib/abilities.ts:11-34 | no rules for a null user; no rule grants delete or manage; every rule but create is bound to the user's own organization |
| Abilities.AdminRules | app/api/lib/abilities.ts:22-24 | no contract; the admin's three rules: read within the org, create unconditionally, update own rows within the org |
| Abilities.ManagerRules | app/api/lib/abilities.ts:27 | no contract; the manager's one rule: read within the org |
| Abilities.Can | app/api/graphql/permissions.ts:18 | no contract; `ability.can(action, "Secret")`: some rule names the action or is a `manage` rule; CanIffRole states what it decides |
| Abilities.CanOn | app/api/lib/abilities.ts:22-27 | no contract; `ability.can(action, row)`: some such rule also has conditions the row's orgId and userId meet; ReadIsOrgScoped states what it decides |
| Abilities.Covers | app/api/lib/abilities.ts:22-27 | no contract; casl's rule matching: a rule applies to an action it names, and a `manage` rule to every action |
| Abilities.Satisfies | app/api/lib/abilities.ts:22-27 | no contract; casl's condition matching: each condition that a rule sets (orgId, userId) equals the row's field |
| Abilities.NullUserCannot | app/api/lib/abilities.ts:16-19 | a null user can do nothing, on the type or on any row |
| Abilities.AdminAbilities | app/api/lib/abilities.ts:21-24 | admin: read rows of their organization, create unconditionally, update rows they own in their organization, nothing else, whatever other scopes they hold |
| Abilities.ManagerAbilities | app/api/lib/abilities.ts:25-27 | a manager who is not an admin reads rows of their organization, and cannot create or update |
| Abilities.OtherScopesGetNothing | app/api/lib/abilities.ts:28-30 | viewer, unknown and missing scopes get no rules |
| Abilities.ReadIsOrgScoped | app/api/lib/abilities.ts:21-31 | no rule lets anyone read a row of another organization |
| Abilities.CanIffRole | app/api/lib/abilities.ts:21-30 | create is granted exactly to admins; read exactly to admins and managers |
| Permissions.ManagerOrAdminGuard | app/api/graphql/permissions.ts:51-53 | the guard `isManager || isAdmin` decides as `isManager` for every caller, and passes exactly when one of the two rules would |
| Permissions.OrRules | app/api/graphql/permissions.ts:51-53 | no contract; `a || b` on two rule objects is `a`, because an object is truthy; ManagerOrAdminGuard states what that means for the guard |
| Permissions.FieldRule | app/api/graphql/permissions.ts:48-62 | the three queries get `isManager`, `createSecret` and `Secret.token` get `isAdmin`, other fields none |
| Permissions.EvalRule | app/api/graphql/permissions.ts:14-45 | `isAdmin` passes exactly when create is granted and `isManager` exactly when read is; denials are FORBIDDEN/403 |
| Permissions.Shield | app/api/graphql/permissions.ts:48-71 | unlisted fields are allowed; every denial is FORBIDDEN with status 403 |
| Permissions.AdminFieldsIffAdmin | app/api/graphql/permissions.ts:56-59 | `createSecret` and `Secret.token` are allowed exactly for users with the admin scope |
| Permissions.QueryFieldsIffReader | app/api/graphql/permissions.ts:51-53 | `secret`, `secrets`, `secretCount` are allowed exactly for admins and managers |
| Permissions.NullUserDenied | app/api/graphql/permissions.ts:14-45 | without a user every listed field is denied |
| SecretService.FindById | app/api/services/secret.service.ts:6-10 | the row with that id when one exists, and null exactly when none does |
| SecretService.NameTaken | app/api/services/secret.service.ts:38-45 | no contract; `findFirst` by name and userId finds a row; NewSecret states the error it causes |
| SecretService.DuplicateNameMessage | app/api/services/secret.service.ts:46-47 | no contract; the text of the duplicate-name error |
| SecretService.NewSecret | app/api/services/secret.service.ts:20-69 | short token, then duplicate (name, userId), then crypto errors, with the source's messages; a created row carries the given fields, the envelope and `hashWithPepper(token)`, and under configured keys creation succeeds exactly when both checks pass |
| SecretService.SixteenIsEnough | app/api/services/secret.service.ts:26 | a 16-unit token is accepted and a 15-unit one refused |
| SecretService.HashAll | app/api/services/secret.service.ts:77-79 | one hash per candidate, in order; an error exactly when there are candidates and no pepper |
| SecretService.Matching | app/api/services/secret.service.ts:81-88 | the rows whose blind index is among the hashes, and no others |
| SecretService.BreachAudit | app/api/services/secret.service.ts:93-101 | no contract; the audit row for one match: its id, userId and orgId, action BREACH and the fixed details text |
| SecretService.MatchingDependsOnSetOnly | app/api/services/secret.service.ts:81-88 | repeated or reordered candidates give the same matches |
| SecretService.MatchingKeepsIdsUnique | app/api/services/secret.service.ts:81-88 | matches of a table with distinct ids have distinct ids |
| SecretService.BreachAudits | app/api/services/secret.service.ts:92-101 | one audit per match, in match order, with its id, userId, orgId, "BREACH" and the fixed details |
| SecretService.Ids | app/api/services/secret.service.ts:91-103 | the matched ids, in match order |
| SecretService.RemoveById | app/api/services/secret.service.ts:112-116 | exactly the rows with other ids remain |
| SecretService.RemoveByIdRemovesOne | app/api/services/secret.service.ts:112-116 | with distinct ids, deleting a present id removes exactly one row |
| SecretService.RemoveByIdAbsent | app/api/services/secret.service.ts:112-116 | deleting an absent id changes nothing |
| SecretService.RemoveByIdKeepsUnique | app/api/services/secret.service.ts:112-116 | deleting keeps ids distinct |
| SecretService.Vault.constructor | app/api/services/secret.service.ts:5 | both tables start empty |
| SecretService.Vault.GetSecretById | app/api/services/secret.service.ts:6-10 | the row with that id, or null exactly when there is none |
| SecretService.Vault.GetAllSecrets | app/api/services/secret.service.ts:12-14 | no contract; `findMany()` with no filter: every row of the table, in table order |
| SecretService.Vault.GetSecretCount | app/api/services/secret.service.ts:16-18 | `count()` is the number of rows `getAllSecrets()` returns |
| SecretService.Vault.CreateSecret | app/api/services/secret.service.ts:20-69 | on success exactly one row is appended; on any error the table is unchanged; audits never change |
| SecretService.Vault.CheckBreaches | app/api/services/secret.service.ts:71-110 | secrets unchanged; audits grow by one BREACH audit per matched row; totalChecked counts the candidates, breachesFound the matches, updatedSecrets lists their ids in order |
| SecretService.Vault.DeleteSecret | app/api/services/secret.service.ts:112-116 | removes exactly the row with that id and returns it; an absent id is an error and changes nothing |
| SecretResolvers.Token | app/api/graphql/resolvers/secret.ts:10-15 | fails when either ciphertext is empty; otherwise equals `envelopeDecrypt` of the pair |
| SecretResolvers.CreatedSecretUnmasks | app/api/graphql/resolvers/secret.ts:10-15 | the token of a row the vault created is the token it was created from |
| SecretResolvers.BreachCount | app/api/graphql/resolvers/secret.ts:17-26 | the count never exceeds the number of audits |
| SecretResolvers.BreachCountAppend | app/api/graphql/resolvers/secret.ts:17-26 | the count over an appended log is the sum of the counts |
| SecretResolvers.BreachCountOfMatches | app/api/graphql/resolvers/secret.ts:17-26 | the audits of one check count 1 for a matched id and 0 for any other |
| SecretResolvers.OneCheckRaisesCountByOne | app/api/graphql/resolvers/secret.ts:17-26 | one `checkBreaches` call raises a matched secret's count by exactly 1, however often its token was repeated, and leaves others unchanged |
| SecretResolvers.QuerySecret | app/api/graphql/resolvers/secret.ts:34-36 | whatever row has that id, with no organization filter |
| SecretResolvers.Readable | app/api/graphql/resolvers/secret.ts:55-60 | exactly the rows the read rule allows |
| SecretResolvers.QuerySecrets | app/api/graphql/resolvers/secret.ts:51-62 | [] for a null user; an error exactly when read is not granted; otherwise exactly the rows the read rule allows |
| SecretResolvers.SecretsAreOwnOrgRows | app/api/graphql/resolvers/secret.ts:55-60 | for an admin or a manager, exactly the rows with `orgId == user.orgId` |
| SecretResolvers.FindOrgScope | app/api/graphql/resolvers/secret.ts:77-79 | the first scope starting with "org:", and none exactly when no scope does |
| SecretResolvers.ExtractOrgId | app/api/graphql/resolvers/secret.ts:77-80 | the text between the first and second ':' of that scope, without ':', or "" when there is none |
| SecretResolvers.OrgIdOfScope | app/api/graphql/resolvers/secret.ts:80 | `scope.split(":")[1]` of a scope starting with "org:" exists, holds no ':', and is followed by ':' or the end |
| SecretResolvers.CreateSecret | app/api/graphql/resolvers/secret.ts:71-89 | the stored userId is the caller's email and the orgId the extracted one; otherwise the vault's createSecret |
| Messages.LongWords | app/api/services/message.service.ts:16-20 | the words whose trimmed length is over 16, and no others |
| Messages.LongWordsAppend | app/api/services/message.service.ts:16-20 | the filter keeps words in place: for a concatenation it gives the words of each part, in order |
| Messages.LongWordsOfOne | app/api/services/message.service.ts:16-20 | one word is kept, untrimmed, exactly when its trimmed length is over 16 |
| Messages.PepperHashPotentialSecrets | app/api/services/message.service.ts:15-23 | the space-split pieces whose trimmed length is over 16, untrimmed; none contains a space |
| Messages.CandidatesOfJoin | app/api/services/message.service.ts:15-23 | the candidates of `a + " " + b` are those of `a` followed by those of `b`, with order and repeats kept |
| Messages.RepeatedTokenOfferedTwice | app/api/services/message.service.ts:15-23 | a long word typed twice is offered twice |
| Messages.ShortWordNeverCandidate | app/api/services/message.service.ts:16-17 | a word of at most 16 units is never a candidate, so a minimal 16-unit secret is never detected |
| Messages.SpacedWordIsPiece | app/api/services/message.service.ts:16 | a space-free word between two spaces is a piece of the split |
| Messages.SpacedLongWordIsCandidate | app/api/services/message.service.ts:16-20 | a long space-free word between two spaces is a candidate |
| Messages.LineBreakStaysAttached | app/api/services/message.service.ts:16-17 | a token followed by a line break is offered with the break attached, never alone |
| Messages.NumberedIdsDistinct | app/api/services/message.service.ts:27 | a log numbered "1", "2", ... never repeats an id |
| Messages.BreachNotice | app/api/services/message.service.ts:46 | no contract; the reply text with the number of matches written in decimal; BreachNoticeNamesCount states that the number can be read from it |
| Messages.BreachNoticeNamesCount | app/api/services/message.service.ts:46 | two counts give the same notice only when they are equal |
| Messages.LineChunk | app/api/services/message.service.ts:102-108 | a chunk exactly when `message.content` is a non-empty string, carrying it with `done: false` |
| Messages.NonBlank | app/api/services/message.service.ts:98 | `filter(line => line.trim())` keeps exactly the lines whose trim is non-empty, and only lines of the input |
| Messages.NonBlankConcat | app/api/services/message.service.ts:98 | filtering out blank lines distributes over concatenation |
| Messages.LineChunks | app/api/services/message.service.ts:100-112 | at most one chunk per line, none done, none a breach, none empty |
| Messages.LineChunksConcat | app/api/services/message.service.ts:100-112 | the chunks of concatenated lines are the concatenated chunks |
| Messages.ReadChunks | app/api/services/message.service.ts:97-112 | the chunks of one read: none done, none a breach, none empty |
| Messages.BodyChunks | app/api/services/message.service.ts:86-113 | the chunks of all reads: none done, none a breach, none empty |
| Messages.StreamChunks | app/api/services/message.service.ts:53-121 | ends with exactly one `{content:"", done:true}` and nothing after it; before it only non-empty content chunks; a failed request, a non-ok status or a missing body give just that final chunk |
| Messages.FailureAfterReadsIsSilent | app/api/services/message.service.ts:114-121 | a read error after some reads looks like a normal end, and an empty body like a failed request |
| Messages.BodyChunksOfOne | app/api/services/message.service.ts:86-113 | a body of one read yields that read's chunks |
| Messages.BodyChunksOfTwo | app/api/services/message.service.ts:86-113 | a body of two reads yields their chunks in order |
| Messages.ReadOfOneLine | app/api/services/message.service.ts:97-98 | a read without a line break is one line, dropped when blank |
| Messages.ReadBoundaryAtLineBreak | app/api/services/message.service.ts:97-98 | a read boundary on a line break changes nothing |
| Messages.OneLineBody | app/api/services/message.service.ts:97-108 | a body that is one non-blank line yields that line's chunk |
| Messages.LineCutByReadIsLost | app/api/services/message.service.ts:97-111 | a JSON line split across two reads is lost, although read whole it would have yielded a chunk |
| Messages.BodyChunksStep | app/api/services/message.service.ts:86-113 | one more read appends its chunks |
| Messages.RelayRead | app/api/services/message.service.ts:97-112 | the `for` loop over the lines of one read yields exactly that read's chunks |
| Messages.RelayBody | app/api/services/message.service.ts:86-113 | the read loop yields exactly the chunks of all reads |
| Messages.RelayStream | app/api/services/message.service.ts:53-121 | once forwarded, the reply is the chunks of all reads followed by the final chunk, and only the final chunk when the request, the status or the body fails |
| Messages.MessageService.constructor | app/api/services/message.service.ts:8 | the log starts empty |
| Messages.MessageService.GetMessages | app/api/services/message.service.ts:11-13 | no contract; the message log as it stands |
| Messages.MessageService.SendMessage | app/api/services/message.service.ts:25-33 | appends and returns `{id: String(oldLength+1), content, role: "user"}`, whose id no earlier message has |
| Messages.MessageService.MessageStream | app/api/services/message.service.ts:35-122 | a check error escapes; with matches, one `{breach notice with the count, done, breach}` chunk and no forwarding; otherwise forwarded, and the reply is the model's stream; BREACH audits are appended either way; the secrets table is unchanged |
| Proxy.IsPublic | app/web/proxy.ts:10-15 | no contract; the four public-path tests: "/login", "/_next…", "/api…", "/favicon.ico" |
| Proxy.Proxy | app/web/proxy.ts:4-25 | public paths always pass; other paths pass exactly with a non-empty token; a redirect goes to /login |
| Proxy.RedirectTargetIsServed | app/web/proxy.ts:10-22 | the login page a redirect leads to is always served, so redirects never loop |
| Proxy.TokenValueIrrelevant | app/web/proxy.ts:7-22 | beyond being non-empty, the token's value plays no part |
| Proxy.EmptyCookieRedirects | app/web/proxy.ts:20-22 | a private page without a cookie, or with an empty one, redirects to /login |
| Proxy.LoosePrefixIsPublic | app/web/proxy.ts:12-13 | illustrates PrefixedPathsArePublic on three paths: the prefixes are plain string prefixes, so "/apiary" and "/_nextpage" pass while "/dashboard" redirects |
| Proxy.PrefixedPathsArePublic | app/web/proxy.ts:10-17 | every path starting with "/api" or "/_next" is served, with or without a token |

## Left out

- AES-256-GCM (NIST SP 800-38D) and SHA-256 (FIPS 180-4) are not computed. They are the functions of a `Primitives` value, constrained by `Lawful`. `crypto.randomBytes` is replaced by the `Entropy` input.
- `generateDEK` is that input: `Entropy.dek`, required to be 32 bytes.
- The streaming cipher's `update`/`final` accumulation is read as one sealing or opening of the whole message.
- Utf8.Decode returns an error for malformed bytes, where Node substitutes U+FFFD. This is reachable only through ciphertext that authenticates but was not produced by the code.
- Encryption.Decrypt reads the IV and the tag with `Buffer.from`, which checks neither length nor digits, as the source does. The ciphertext's hex is refused when it has an odd number of code units, as `decipher.update` does. Apart from that, a tampered frame is covered only by `TamperedTagFails`, for a replaced 16-byte tag.
- Encryption.Decrypt reports the odd-length hex before asking the cipher. Where the source's `setAuthTag` would already refuse a tag length, both are errors, but the model names the hex error.
- Encryption.EnvelopeRoundTrip holds for every Dafny string. Dafny strings are sequences of Unicode scalar values, but a JavaScript string can hold a lone UTF-16 surrogate, for instance from the JSON escape `"\ud800"`. Node's `utf8` encoding turns a lone surrogate into U+FFFD, so such a token does not come back unchanged in the source.
- Encryption.EncryptDecrypt is stated over scalar-value strings for the same reason. A lone surrogate does not survive `encrypt` then `decrypt` in the source.
- SecretResolvers.CreatedSecretUnmasks is stated over scalar-value strings too. A token holding a lone surrogate unmasks to a different string in the source.
- The tag law needs 16-byte tags, because Node also accepts truncated GCM tags.
- Slicing counts code points. The source counts UTF-16 code units, which agree on the hex text the code produces.
- The blind index's collision resistance is not modelled. Nothing states that two different tokens hash differently.
- `fetch`, `response.body.getReader()`, `TextDecoder` and `JSON.parse` are inputs: `Downstream` and the `parse` oracle.
  - Reads are already-decoded strings. A multi-byte character cut between two reads is not modelled.
  - A truthy `message.content` that is not a string is treated like an absent one.
- The async generator, its cancellation and concurrency are left out. A turn is the finite list of chunks it yields.
- The request body sent to the model, and `OLLAMA_API_URL`, are left out.
- Logging is left out.
- Prisma is modelled as in-memory sequences. The database assigns secret ids, so `CreateSecret` takes a fresh id as a parameter.
  - Timestamps and their ISO formatting (`createdAt`, `updatedAt`) are left out.
  - A failing database call is left out.
- `accessibleBy` fails when no rule grants read; it is modelled as the `Forbidden` error. The translation to a Prisma `where` clause is replaced by the row predicate `CanOn`.
- graphql-shield's caching is left out. So is its `fallbackError` "Not authorized", which would replace a rule's own message.
- `isAuthenticated` is declared but used by no field. It is not modelled.
- JWT verification is the `verify` oracle of `GetAuthContext`.
- The redirect's absolute URL is reduced to its path `/login`.
- The `config.matcher` of the page guard is not modelled.
- SecretService.Vault.GetAllSecrets and Messages.MessageService.GetMessages are plain accessors and carry no contract; GetSecretCount is tied to GetAllSecrets.
- `secretCount` has no contract: it is `getSecretCount`.
- The audit resolver, the user resolver, the UI, the server wiring and the GraphQL schema text are not part of this model.
