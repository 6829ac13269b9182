# AuthraGen: a verified model of exact authority

AuthraGen's gateway promises that an agent runs only the operation it was granted, once, within
a budget, under a delegation chain that only narrows. This project models the code behind that
promise in Dafny and proves it: over every run of the gateway, under every interleaving of the
database transactions, for every pattern, text and byte string.

`dafny verify dfyconfig.toml` checks everything.

| module | models | source |
|---|---|---|
| `Gateway` | the store, the requests and one step for each of them | `src/server.js`, `src/tokens.js`, `src/intent.js` |
| `GatewayServer` | the same handlers as an object with guards, loops and assignments of its own, each proved to take exactly that step | `src/server.js`, `src/tokens.js` |
| `GatewayInvariants`, `GatewayGrants`, `GatewayExecutions` | what every step keeps | |
| `GatewayTheorems` | the promises over whole runs | |
| `GatewayExact` | exactly which executions and registrations go through, as flat conditions over all ancestors | `src/server.js`, `src/tokens.js` |
| `GatewayAnswers` | what `authorize` answers, exactly, on the fields of the request, and what each answer leaves | `src/server.js`, `src/policy.js`, `src/risk.js` |
| `GatewayDecisions` | what an approver's decision does, exactly, and who the approvers of a record are | `src/server.js` |
| `GatewayEffects` | what an execution leaves, field by field, and why one is refused | `src/server.js` |
| `GatewayFaults` | why a passport or a token is refused | `src/tokens.js` |
| `GatewayPassports` | issuing, rotating, statuses and locks, exactly | `src/tokens.js` |
| `GatewayDeadlines` | every execution is timely | `src/server.js`, `src/intent.js` |
| `GatewayRevocations` | which revocations last, exactly | `src/server.js`, `src/tokens.js` |
| `GatewayWindow` | single use holds if and only if the intent window closes in time | `src/nonce.js`, `src/intent.js` |
| `Delegation`, `Attenuation`, `Glob` | attenuation of delegation tokens, its test on patterns, and pattern matching | `src/tokens.js`, `src/policy.js` |
| `Policy`, `Risk` | the policy verdict and the risk score behind every decision | `src/policy.js`, `src/risk.js` |
| `Intents`, `Params` | from a raw request, its parameters included, to the canonical intent that is hashed | `src/intent.js` |
| `Doubles` | Number arithmetic on non-negative integers | |
| `Replay` | the pruned replay map | `src/nonce.js` |
| `Reservation` | the Postgres reservation: the method, and its transactions interleaved statement by statement under row locks | `src/store/postgres.js` |
| `SeenCache`, `RateLimiter`, `MirrorStore` | the caches that must agree with something simpler | `src/server.js`, `src/store.js` |
| `JsonStrings`, `CanonicalJson` | the canonical printer | `src/crypto.js` |
| `JsonReader` | a reader of JSON texts, written for itself, that gives back what was printed | `src/crypto.js`, `src/intent.js` |
| `DuplicateKeys` | the duplicate-key scanner, against a grammar of JSON texts | `src/crypto.js` |
| `CanonicalText` | the printer's output against that grammar, colliding names included | `src/crypto.js` |
| `AuditChain` | redaction and the hash chain of receipts | `src/audit.js` |
| `Wire`, `Der` | varints, records, frames, and the ECDSA signature converter | `adapters/spiffe.js`, `src/oidc.js` |

## How it is modelled

- A gateway is a state and a step function; a run starts from an empty store and takes any
  sequence of requests, each drawing fresh random identifiers. Every request reads the clock
  once, and time never goes back; this holds for the caches as well.
- Signatures are ideal: an envelope is valid exactly if it is in the set of sealed ones, an agent
  or delegation signature names its key and its message. The hash of an intent is the intent.
  In `AuditChain` the hash is a parameter, injective and written without a bar.
- The Unicode normaliser is a parameter. The printer and parameters work on UTF-16 code units,
  patterns, identifiers and the other fields of intents on Dafny strings.
- A request to `authorize` brings the organisation's policies, the time of day, whether the
  resource was seen lately (`SeenCache` says when that is) and the organisation's thresholds; the
  verdict, the quorum and the score are computed. An empty key number counts as none; the
  key called `k1` has number 1.
- The clock starts after zero, so that no time stamp counts as missing.
- Functions describe what the code computes; methods with the source's loops and assignments
  are proved equal to them; lemmas state what that means, in terms that do not name those functions:
  accepted patterns, scores by their points, receipts by their fields, limits by their numbers.
- Stored policies have distinct ids; that the order of equal priorities matters is stated for all lists.

## What turned out false, and exactly when it holds

- `globSubset` is sound for values without line terminators. Over all values it is sound exactly
  when the parent is `*` or `**` or both patterns hold equally many terminators
  (`Attenuation.GlobSubsetOverAllValues`; `Attenuation.TerminatorEscapes` is a case where it is not).
- One pattern is inside another exactly when the other, given it as a value, matches it
  (`Attenuation.InclusionExactly`). So `globSubset` wrongly refuses a pattern exactly when
  `globMatch(parent, child)` holds and it says no, which is to say when the child matches the parent
  behind its first star but does not end in the same text (`Attenuation.GlobSubsetErrsExactly`), as for
  `a*` under `a**`; under a parent with at most one star that never happens (`Attenuation.OneStarParentDecides`).
- Single use holds in all runs exactly when `INTENT_TTL_S + CLOCK_SKEW_S <= 600`; otherwise
  `GatewayWindow.TwiceInOneRun` is a run that executes one intent twice.
- `hasDuplicateKeys` misses every duplicate of a text that exceeds its depth counter: objects
  count twice, so fifty levels are always within it and fifty-one objects are not
  (`DuplicateKeys.DepthHidesDuplicates`).
- A limiter with limit L lets at most 2L - 1 requests pass in a closed minute, and that is tight.
  Its advice to retry is a millisecond early exactly when the wait is a whole number of seconds.
- `decodeFields` undoes `encString` exactly for record numbers below 2^28; `readVarint` undoes
  `encVarint` below 2^70 and refuses everything above.
- An append keeps the log verifiable exactly when the entry brings neither a `hash` nor another
  `prev_hash`.
- After a refresh, memory is right at a key exactly when the last write to it issued since its
  collection was read, if there is one, writes what was read (`MirrorStore.SwapIsRightExactly`);
  `MirrorStore.MirrorExactly` carries this through runs, `MirrorStore.PutIsDropped` is a run that fails.
- Whoever starts a refresh sees his own writes; whoever joins one under way may not
  (`MirrorStore.CallerSees`, `MirrorStore.JoinerMissesHisWrite`).
- `POST /v1/revoke` joins a key number in the request to the id it records. The revocation of a
  usable token, passport or acceptable action credential lasts exactly if there is none, or the joined
  name is by chance that of a token or passport above it; that of a blueprint always lasts; that of an
  organisation is a lock that can be lifted. The revocation of a key lasts exactly if the key is
  archived: rotation archives a revoked current key unrevoked (`GatewayRevocations`).
- The policy that decides, and with it the quorum, may depend on the order in which policies are
  stored: exactly when several of highest priority may decide, and for the quorum exactly when they ask
  for different numbers (`Policy.OrderMattersExactly`).
- A parameter called `__proto__` is checked and then dropped, so it is not part of the hash
  (`Params.ProtoVanishes`).
- Canonical texts have a name twice exactly where two keys have one normal form
  (`CanonicalText.CanonicalDuplicatesExactly`), since keys are told apart before they are normalised.
- A canonical intent sent again is accepted unchanged exactly when normalising has left its texts
  within their length limits (`Intents.CanonicalIsStable`); U+0958 under NFC is enough to break them
  (`Intents.SomeIntentIsUnstable`).

Where documentation and code disagree, the code is modelled. `docs/guide/delegation.md:51` says
`require_approval` is enforced when authorizing; no code reads it after registration, so only its
narrowing is proved. `docs/guide/delegation.md:53` calls `*` one segment; the code lets it match any
run of characters. The comment at `src/crypto.js:53-54` expects misses on exotic escapes; there are none.

## Model

| member | source | states |
|---|---|---|
| `GatewayServer.Server.Authorize` | src/server.js:204-289 | the chain of guards for caller, passport, token, verdict and risk, and the updates each decision leaves, amount to the authorize step |
| `GatewayServer.Server.CheckPassport` | src/tokens.js:87-106 | the walk up the parents with its trail, terminating, gives the verdict that `UsablePassportExactly` is about |
| `GatewayServer.Server.CheckToken` | src/tokens.js:316-331 | the walk up the chain, ancestors first, then the subject |
| `GatewayServer.Server.ArchivedKey` | src/tokens.js:75-75 | the loop finds the first archived key of that number |
| `GatewayServer.Server.CheckIntent` | src/intent.js:92-108 | the loop over the nonce and the window tests |
| `GatewayServer.Server.CheckCaller` | src/server.js:206-219 | an agent by its signature and key, or a service in its place |
| `GatewayServer.Server.Judge` | src/server.js:230-285 | from the usability of the passport to the decision, errors that leave no receipt told apart |
| `GatewayServer.Server.Decide` | src/server.js:791-835 | an approver's decision takes exactly the decide step, errors included |
| `GatewayServer.Server.Count` | src/server.js:812-832 | one more approval waits for others or fills the quorum |
| `GatewayServer.Server.Complete` | src/server.js:820-832 | reaching the quorum seals one action and one approval credential and records it |
| `GatewayServer.Server.Execute` | src/server.js:291-371 | the handler takes exactly the execute step: nonce, then credential, then debit, then receipt, or a deny receipt |
| `GatewayServer.Server.CheckExecution` | src/server.js:296-341 | the guards of `execute` in their order: credential, approval, lineage, key, chain, budget |
| `GatewayServer.Server.RegisterDelegation` | src/tokens.js:255-315 | the guards in their order store exactly the token that a flat account of the checks allows, or nothing |
| `GatewayServer.Server.DebitBudget` | src/tokens.js:351-362 | the debit tests the budget again and adds the amount to that one token only if there is room |
| `GatewayServer.Server.IssuePassport` | src/tokens.js:115-154 | name, custody, key, parent and blueprint are checked in that order, and the passport stored has its expiry capped by its parent's |
| `GatewayServer.Server.SetPassportStatus` | src/tokens.js:201-212 | a status change, with the revocation that goes with "revoked" |
| `GatewayServer.Server.RotatePassport` | src/tokens.js:156-182 | rotation takes the key offered, or draws one if the gateway keeps the private key, and archives the current one, unrevoked, for the passport's own grace period |
| `GatewayServer.Server.RevokeKey` | src/tokens.js:183-200 | the loop marks and closes the first archived key of that number, or marks the current one |
| `GatewayServer.Server.RevokeTarget` | src/server.js:862-878 | a revocation marks the record it names and is recorded under its id with any key number joined to it |
| `GatewayServer.Server.CreateOrg` | src/tokens.js:28-34 | an organisation starts unlocked |
| `GatewayServer.Server.SetLock` | src/server.js:518-525 | a lock is set or lifted on a known organisation only |
| `GatewayExact.UsablePassportExactly` | src/tokens.js:87-106 | a passport is usable exactly when it and all its ancestors are in order |
| `GatewayExact.UsableTokenExactly` | src/tokens.js:316-331 | a token is usable exactly when it, all its ancestors and the lineages of all their subjects are in order |
| `GatewayExact.KeyExactly` | src/tokens.js:69-80 | a key may be used exactly if the current one is unrevoked and it is current or the first archived of its number, unrevoked and in grace |
| `GatewayExact.ShapeExactly` | src/intent.js:92-108 | an intent is accepted exactly inside its window; the test for an `iat` too far back never decides |
| `Intents.RawShapeExactly` | src/intent.js:72-108 | a raw request is accepted exactly when its fields and parameters are in order and its canonical form is inside its window |
| `Intents.CanonicalSays` | src/intent.js:72-88 | the canonical intent says what was sent: texts in normal form, defaults in their places, the normal resource, and the canonical text of the normal parameters |
| `Intents.TraversesExactly` | src/intent.js:25-27 | a resource is refused as climbing exactly when one of its segments is `..` |
| `Intents.ResourceIsNormal` | src/intent.js:25-29 | a canonical resource has no empty segment, no climbing one, no backslash, and ends in a slash only alone or behind a line terminator |
| `Intents.CanonicalIsStable` | src/intent.js:72-88 | a canonical intent sent again is its own canonical form exactly when its texts and parameters are within their limits, and otherwise refused |
| `Intents.LongFormIsRefused` | src/intent.js:21-23 | for any normaliser: if the normal form of a short text is too long, an intent is accepted whose canonical form is refused |
| `Intents.SomeIntentIsUnstable` | src/intent.js:21-23 | an instance, with the decomposition of U+0958 |
| `Params.Normalise` | src/intent.js:46-70 | the loops over items and members, the collision test and the member that vanishes |
| `Params.ParamsExactly` | src/intent.js:35-71 | parameters are accepted exactly when absent, or an object within the limits of text, strings, items, members and keys, finite and clean, with keys that stay apart once normalised |
| `Params.NormIsNormalForm` | src/intent.js:46-70 | accepted parameters become their normal form, and nothing else happens to them |
| `Params.ProtoVanishes` | src/intent.js:63-66 | normal parameters have no member `__proto__`, and otherwise a member for every one sent |
| `Params.TextExactly` | src/intent.js:35-90 | accepted parameters always have a canonical text |
| `Params.AcceptedAreTold` | src/intent.js:35-90 | two accepted values have one canonical text exactly when they are equal once normalised, up to member order and "signature" members |
| `Params.ParamsAreStable` | src/intent.js:35-71 | normal parameters are accepted as they are exactly when they are within the limits |
| `GatewayAnswers.AuthorizeExactly` | src/server.js:204-289 | on a reachable store every request is answered as its fields require: allow, deny, step-up, dry run or the first error, with the policies shown the amount, resource, depth and the rest of this very request and the score added up from its points |
| `GatewayAnswers.AllowsExactly` | src/server.js:204-285 | so `authorize` mints a credential at once exactly under one flat condition |
| `GatewayAnswers.RuleAppliesExactly` | src/policy.js:18-65 | a policy applies exactly when patterns of its own accept action and resource and each key of its condition holds of the request |
| `GatewayAnswers.ScoreExactly` | src/risk.js:16-36 | the score is the points for the action, the money, the depth, a new resource, the hour and a long chain, cut at one hundred |
| `GatewayAnswers.DryRunForetells` | src/server.js:260-265 | what a dry run says is what the same request is answered in earnest |
| `GatewayAnswers.StepUpStores` | src/server.js:271-279 | a step-up stores one pending record with the intent, token and key number of the request, for fifteen minutes, and as quorum what the deciding policy asks for, or one |
| `GatewayAnswers.AllowMints` | src/server.js:280-285 | an allowance seals one credential for this operation and its lifetime, and logs it |
| `GatewayAnswers.OthersLeaveReceipts` | src/server.js:258-289 | a denial and a dry run leave their receipt only, an error nothing |
| `Policy.EvaluatesExactly` | src/policy.js:67-91 | a request is allowed exactly if an allowing policy applies and no denying or step-up policy does, whatever their priorities; the policy named is one of the highest priority of its kind |
| `Policy.OrderIsIrrelevant` | src/policy.js:67-91 | filter, sort and search give the same effect for any order of the policies |
| `Policy.OrderMattersExactly` | src/server.js:272-275 | the policy named and the quorum do not depend on the order exactly when one policy may decide, and when all that may agree in their number |
| `Policy.DeciderIsFirst` | src/policy.js:67-91 | the policy found is the first in the list among those of highest priority |
| `Policy.QuorumIsOwn` | src/server.js:272-275 | the quorum looked up by id is the deciding policy's own |
| `Risk.ScoreIsMonotone` | src/risk.js:16-36 | more money, a deeper chain or an unseen resource never lower the score, which stays a percentage |
| `GatewayExact.ExecuteChecksExactly` | src/server.js:296-341 | the checks before the reservation amount to a flat condition from which the comparisons that never decide are gone |
| `GatewayExact.ExecutesExactly` | src/server.js:291-363 | an execution goes through exactly when intent, credential with no field missing, approval, lineage, key, chain, budget and both replay entries are in order |
| `GatewayExact.RunsExecuteExactly` | src/server.js:291-363 | the same at every step of every run, where no field is ever missing |
| `GatewayExact.RegistersExactly` | src/tokens.js:255-315 | registration succeeds exactly when issuer, subject, envelope and parent are in order and the token asked for is within the limits and no wider than its parent, and then stores exactly that token: each field as the payload gives it, or else as the parent or the root has it |
| `GatewayExact.KeyIsExactly` | src/tokens.js:69-80 | and then it is that very key that signatures are checked against |
| `GatewayExact.RegisteredIsAuthorised` | src/tokens.js:255-315 | a registered token was signed for by a healthy issuer with a valid key, for a healthy subject, and is a narrower child of the issuer's usable token or a permitted root |
| `GatewayEffects.ExecutionLeaves` | src/server.js:291-371 | an execution that goes through holds both replay entries for ten minutes, debits the one token and leaves its receipt with the approval it used; one that meets a used nonce or credential holds the nonce; any other leaves a deny receipt, or nothing if the intent is out of its window |
| `GatewayEffects.TokensAreStored` | src/tokens.js:311-315 | a registered token is stored under its own id and noted; a refusal leaves nothing |
| `GatewayEffects.RefusalExactly` | src/server.js:296-341 | an execution is refused with the code of the first thing wrong |
| `GatewayFaults.FaultExactly` | src/tokens.js:87-106 | a passport is refused with the code of the first fault on the way up its parents |
| `GatewayFaults.TokenFaultExactly` | src/tokens.js:316-331 | a token is refused for its own fault, otherwise as its parent is, otherwise for the first fault of its subject |
| `GatewayDecisions.DecidesExactly` | src/server.js:791-835 | a yes that is heard approves the record if it fills the quorum and waits for others if not; a no denies it, counts nobody and seals nothing; a late word expires it; any other changes nothing |
| `GatewayDecisions.StatusExactly` | src/server.js:800-835 | the status after a decision on an open record tells who said what and when |
| `GatewayDecisions.ApproversSaidYes` | src/server.js:791-835 | in every run the approvers of a record are exactly those who said yes to it and were heard |
| `GatewayDecisions.DeniedNeverSeals` | src/server.js:805-811 | in no run is anything sealed or executed for a denied record |
| `GatewayPassports.IssuesExactly` | src/tokens.js:115-154 | a passport is issued exactly to an eligible agent with a key, and holds what was asked for, its expiry cut at the parent's |
| `GatewayPassports.RotatesExactly` | src/tokens.js:156-182 | a rotation puts the next key in place of the current one and archives that, unrevoked, and changes nothing else |
| `GatewayPassports.RotationGrace` | src/tokens.js:69-80 | after a rotation the old key is good under its number exactly until the grace period ends, five minutes unless the passport says otherwise |
| `GatewayPassports.PassportsAreStored` | src/tokens.js:115-182 | a passport issued or rotated is stored under its id and noted; a refused request leaves nothing |
| `GatewayPassports.OthersAreNoted` | src/tokens.js:201-212 | status changes and locks on known records are noted, others do nothing |
| `GatewayPassports.RevokesExactly` | src/server.js:862-878 | a revocation of what there is marks that record and no other, is recorded under its id with any key number joined to it, and noted; the first archived key of the number goes before the current one |
| `GatewayPassports.StatusLasts` | src/tokens.js:201-212 | a status change keeps a usable passport from use for good exactly if it revokes it |
| `GatewayPassports.LocksExactly` | src/server.js:518-525 | a lock closes one known organisation and unlocking opens it |
| `GatewayPassports.CreatesExactly` | src/tokens.js:28-45 | a new organisation is open, and a blueprint is stored for an open one only |
| `GatewayTheorems.RunInv` | src/server.js:204-371 | every state of every run satisfies the invariant of all modules together |
| `GatewayTheorems.ExecutionsAreJustified` | src/server.js:281-363 | every executed receipt has an earlier grant for its own intent and credential: an allow receipt, or an approval with a full quorum of distinct approvers |
| `GatewayTheorems.ExecutedReceiptsComeFromExecute` | src/server.js:362-362 | no other request writes an executed receipt |
| `GatewayTheorems.RunOnce` | src/server.js:357-358 | if the window closes in time, no run executes an intent or a credential twice |
| `GatewayTheorems.BudgetsAreConserved` | src/tokens.js:340-362 | in every state the stored spend of a token is the sum of its executions and within its cap |
| `GatewayTheorems.AuthorityOnlyNarrows` | src/tokens.js:269-314 | along every chain no cap, date or depth is wider than an ancestor's, approval is never dropped, depth counts the ancestors and is at most four |
| `GatewayTheorems.AncestorsCoverToo` | src/tokens.js:332-339 | whatever a token covers every ancestor covers: any operation free of line terminators, and any at all where the patterns along the chain agree in theirs |
| `GatewayTheorems.CycleChecksNeverFire` | src/tokens.js:90-91 | in a reachable store neither hierarchy check for a cycle can throw |
| `GatewayTheorems.RevokedTokensNeverExecute` | src/server.js:313-338 | a token revoked at any earlier step blocks every execution whose chain holds it |
| `GatewayTheorems.RevokedPassportsNeverExecute` | src/server.js:327-338 | a passport or blueprint revoked at any earlier step blocks every execution whose subjects descend from it, whatever status changes follow |
| `GatewayRevocations.TokenRevocationLasts` | src/tokens.js:381-394 | from any reachable store: after the revocation of a usable token no sequence of requests makes it usable again, exactly if the recorded name is on its chain, as it is without a key number |
| `GatewayRevocations.PassportRevocationLasts` | src/tokens.js:381-394 | the same for a usable passport and its lineage; otherwise a status change undoes it |
| `GatewayRevocations.ActionRevocationLasts` | src/server.js:877-877 | the revocation of an acceptable action credential lasts exactly if the request carries no key number |
| `GatewayRevocations.BlueprintRevocationLasts` | src/server.js:875-875 | after the revocation of a blueprint none of its passports is ever usable again, with or without a key number |
| `GatewayRevocations.OrgRevocationLifts` | src/server.js:876-876 | the revocation of an organisation locks it, and unlocking lifts it |
| `GatewayRevocations.KeyRevocationLasts` | src/tokens.js:183-200 | the revocation of a key of a usable passport lasts exactly if it is not the current one |
| `GatewayTheorems.ChainsAreStable` | src/tokens.js:311-314 | chains of tokens and passports never change once they exist |
| `GatewayTheorems.ApprovalHistory` | src/server.js:800-830 | between any two states a record only moves forward, terminal ones are frozen, approvers are distinct and only added |
| `GatewayTheorems.ApprovedExactlyAtQuorum` | src/server.js:812-820 | a record becomes approved exactly in the step that first fills its quorum |
| `GatewayTheorems.OneCredentialPerApproval` | src/server.js:826-830 | action credentials and approvals correspond one to one |
| `GatewayDeadlines.ExecutionsAreTimely` | src/server.js:311-324 | an execution happens inside its intent's window and within the credential's lifetime after its grant; an approval came within fifteen minutes of the step-up that asked for it |
| `GatewayDeadlines.StepKeepsTimes` | src/intent.js:165-187 | every step keeps each credential's and record's expiry tied to the receipt that started it |
| `GatewayDeadlines.RunComplete` | src/server.js:304-304 | in no run does the guard against missing fields refuse a sealed credential |
| `GatewayGrants.DecideKeepsApprovals` | src/server.js:800-830 | a decision keeps every record in order and moves it along the permitted transitions only |
| `GatewayGrants.StepKeepsGrants` | src/server.js:204-371 | every step keeps: each sealed credential has its grant, no credential id is sealed twice |
| `GatewayExecutions.StepKeepsJustified` | src/server.js:291-363 | every step keeps every executed receipt justified |
| `GatewayExecutions.StepKeepsBalance` | src/tokens.js:357-362 | every step keeps stored spend equal to the receipts |
| `GatewayExecutions.StepKeepsGuards` | src/nonce.js:50-70 | every step keeps both replay entries of every execution for ten minutes |
| `GatewayExecutions.ExecutedIntentIsRefused` | src/nonce.js:56-57 | while an executed intent is still acceptable its nonce is still held |
| `GatewayInvariants.StepKeepsTokens` | src/tokens.js:255-362 | every step keeps all tokens bounded, narrower than their parents and unchanged but for what was spent |
| `GatewayInvariants.StepKeepsPassports` | src/tokens.js:115-212 | every step keeps parents existing, of one organisation, outliving their children, and without cycles |
| `GatewayInvariants.DonePassed` | src/server.js:294-360 | an execution that went through had a complete, current, unrevoked credential for this very intent, a usable lineage and key, and a usable chain with room in its budget |
| `GatewayWindow.SingleUseExactly` | src/intent.js:100-104 | no run executes an intent twice if and only if the window and the skew together are at most ten minutes |
| `GatewayWindow.TwiceInOneRun` | src/nonce.js:32-37 | otherwise a run that does, under the default thresholds |
| `Replay.ReplayMap.Prune` | src/nonce.js:32-37 | the loop leaves exactly the entries that have not expired |
| `Replay.ReplayMap.ConsumeOnce` | src/nonce.js:50-61 | prune, test and insert, as one function of the map |
| `Replay.ReplayMap.ConsumeActionJTI` | src/nonce.js:63-70 | the same under the key of a credential |
| `Replay.ConsumedUntilExpiry` | src/nonce.js:56-58 | a consumed value is refused exactly until its entry expires |
| `Replay.PruneTwice` | src/nonce.js:32-39 | how often the timer prunes changes no later answer |
| `Replay.KeysAreUnambiguous` | src/server.js:349-350 | the two key spaces of the map do not meet and lose nothing |
| `Delegation.RegistrationNarrows` | src/tokens.js:269-314 | the check and the construction agree: the token stored is bounded and narrower than its parent |
| `Delegation.CoversExactly` | src/tokens.js:332-339 | a token covers an operation exactly when the action, the resource and, where targets are given, the destination are each accepted by a pattern of their own list |
| `Delegation.BuildsExactly` | src/tokens.js:298-314 | what is stored is what the payload asks for, field by field, exactly when that is within the limits |
| `Delegation.NarrowsExactly` | src/tokens.js:269-296 | the checks against the parent pass exactly when that token would be no wider |
| `Delegation.RootIsBounded` | src/tokens.js:298-314 | a root token is within the fixed limits |
| `Delegation.NarrowerCoversLess` | src/tokens.js:332-339 | what a narrower token covers the wider one covers, in the same two cases |
| `Delegation.BudgetTestIsExact` | src/tokens.js:340-356 | the budget test in Number arithmetic is the comparison of exact integers |
| `Doubles.RoundIsNearest` | src/tokens.js:354-354 | the Number that stands for an integer is the nearest one of its 53-bit scale, the even one in a tie |
| `Doubles.SumComparisonIsExact` | src/tokens.js:347-347 | rounding a sum never changes its comparison with a safe limit, for any summands |
| `Doubles.SumComparisonNeedsSafeLimit` | src/tokens.js:354-354 | above 2^53 it can |
| `Glob.GlobMatchIsWild` | src/policy.js:8-16 | the compiled regular expression, read back from its text, accepts exactly the wildcard relation |
| `Glob.AcceptsExactly` | src/policy.js:8-16 | a pattern matches exactly what equals it, everything if it is a lone `*` or `**`, and what the wildcard relation holds of |
| `Glob.EscapedPatternReads` | src/policy.js:14-14 | escaping and joining loses nothing: the expression reads back as the pattern |
| `Attenuation.GlobSubsetSound` | src/tokens.js:226-233 | an admitted pattern accepts nothing its parent refuses, any number of stars |
| `Attenuation.GlobSubsetOverAllValues` | src/tokens.js:226-233 | over all values, exactly when the line terminators agree |
| `Attenuation.TerminatorEscapes` | src/tokens.js:232-232 | a concrete admitted pattern and value that its parent refuses |
| `Attenuation.GlobSubsetDecidesOneStar` | src/tokens.js:226-233 | with at most one star on each side, in patterns of any length, the test decides inclusion |
| `Attenuation.InclusionImpliesSubset` | src/tokens.js:226-233 | its harder half: inclusion implies that the test admits |
| `Attenuation.WildInclusionExactly` | src/policy.js:8-16 | for any number of stars: one wildcard language is inside another exactly when the pattern, as a value, is accepted |
| `Attenuation.InclusionExactly` | src/tokens.js:226-233 | the same for `globMatch` on values free of line terminators |
| `Attenuation.InclusionOverAllValues` | src/tokens.js:226-233 | and over all values |
| `Attenuation.GlobSubsetErrsExactly` | src/tokens.js:226-233 | the test differs from inclusion exactly when the texts around the first stars are read as pattern and as text to different ends |
| `Attenuation.MissedExactly` | src/tokens.js:226-233 | that is the case exactly when behind the first star of the parent the child matches what the parent has there as a pattern, and does not end in it as a text |
| `Attenuation.OneStarParentDecides` | src/tokens.js:226-233 | under a parent with at most one star it never does, whatever the child |
| `Attenuation.GlobSubsetIncomplete` | src/tokens.js:226-233 | with two stars in the parent it does |
| `Glob.MatchFixesTerminators` | src/policy.js:14-15 | a star never absorbs a line terminator, so a match fixes their number |
| `Attenuation.PatternsSubsetSound` | src/tokens.js:234-238 | a narrowed list accepts nothing the wider one refuses: no value free of line terminators, and none at all where the patterns agree in theirs |
| `Attenuation.LineFreeListsAgree` | src/tokens.js:234-238 | which they do when they hold none |
| `Reservation.Store.CheckAndDebitExecution` | src/store/postgres.js:782-836 | the statements in their order, with rollback, amount to one atomic function of the tables |
| `Reservation.AnswersExactly` | src/store/postgres.js:782-836 | at every moment of every interleaving the tables hold the initial rows and those of the successful calls, and a call was refused for its nonce, its credential or its budget exactly if the calls that ended before it require it |
| `Reservation.StepIsAtomic` | src/store/postgres.js:782-836 | under interleaving a statement either leaves the committed tables alone or ends a call with exactly the effect and answer it has alone |
| `Reservation.StepKeepsSys` | src/store/postgres.js:790-828 | every statement keeps the locks exclusive and what open transactions have read true |
| `Reservation.Serialisable` | src/store/postgres.js:782-836 | at every moment of every interleaving the tables and answers are those of the ended calls in the order they ended |
| `Reservation.ConcurrentSafety` | src/store/postgres.js:795-826 | nonces and credentials commit once and never if stored at first, refused calls leave no row, spend is the sum of the committed amounts and within a fixed limit |
| `Reservation.NoDeadlock` | src/store/postgres.js:791-816 | no cycle of waits can arise |
| `Reservation.SomeoneCanMove` | src/store/postgres.js:791-816 | while a transaction is open some open transaction waits for nobody |
| `SeenCache.Cache.IsSeen` | src/server.js:166-172 | the answer and the entry it drops |
| `SeenCache.Cache.MarkSeen` | src/server.js:173-182 | the key moves to the end and the loop drops the oldest beyond the bound |
| `SeenCache.SeenExactly` | src/server.js:162-182 | a key counts as seen exactly when marked at most ten minutes ago with fewer than 50000 other keys since |
| `SeenCache.BoundedAndOrdered` | src/server.js:173-182 | the map never outgrows its bound and lists its keys by mark time |
| `SeenCache.SeenKeyIsInjective` | src/server.js:165-165 | the joined key loses nothing when resources hold no backslash |
| `RateLimiter.Limiter.RateLimit` | src/server.js:66-78 | the bucket is opened or counted up and the verdict given |
| `RateLimiter.Limiter.Sweep` | src/server.js:79-82 | the loop removes exactly the closed buckets |
| `RateLimiter.VerdictIsOwn` | src/server.js:65-82 | a verdict depends on the key's own requests only, not on sweeps or other keys |
| `RateLimiter.MinuteIsBounded` | src/server.js:70-73 | the bound for a sequence of request times |
| `RateLimiter.RunIsBounded` | src/server.js:65-82 | a closed minute lets at most 2L - 1 requests of a key pass |
| `RateLimiter.MinuteIsTight` | src/server.js:70-73 | and 2L - 1 is reached for every L |
| `RateLimiter.RetryAdvice` | src/server.js:73-75 | when coming back as told opens a new bucket |
| `RateLimiter.KeyTells` | src/server.js:67-67 | the joined key tells client and route apart, whatever a client calls itself |
| `MirrorStore.Mirror.SwapAll` | src/store.js:43-47 | replacing collection by collection amounts to one swap of the listed collections |
| `MirrorStore.Mirror.RunTask` | src/store.js:23-30 | a task runs, and its failure is remembered while the chain goes on |
| `MirrorStore.Mirror.Put` | src/store.js:55-55 | memory at once, the write at the end of the chain |
| `MirrorStore.Mirror.Del` | src/store.js:56-56 | the same for a deletion |
| `MirrorStore.Mirror.StartRefresh` | src/store.js:37-41 | a refresh under way is joined, otherwise one begins to wait for the writes issued so far |
| `MirrorStore.Mirror.EndOfFlush` | src/store.js:31-42 | a remembered failure ends the refresh, otherwise it begins to read |
| `MirrorStore.Mirror.DumpCollection` | src/store.js:42-42 | one collection is read off the remote store as it then is |
| `MirrorStore.Mirror.FailToRead` | src/store.js:42-50 | a collection that cannot be read ends the refresh and leaves memory alone |
| `MirrorStore.FailedForever` | src/store.js:23-36 | flushes fail from the first failed write on, and only then |
| `MirrorStore.RefreshNeedsFlush` | src/store.js:31-42 | in every run memory is only replaced after a flush that met no failure; a flush that met one ends its refresh |
| `MirrorStore.FlushIsDurable` | src/store.js:31-36 | a flush that succeeds leaves every earlier write applied, in order |
| `MirrorStore.SwapIsRightExactly` | src/store.js:43-47 | whatever memory held, a swap makes it right at a key exactly when the last write to the key since its collection was read writes what was read |
| `MirrorStore.SettledIsHarmless` | src/store.js:37-47 | in particular when every write to it settled before that |
| `MirrorStore.MirrorExactly` | src/store.js:23-56 | in every run without a failed write memory is right at a key exactly if the last swap was harmless to it or the key was written since |
| `MirrorStore.MirrorRefines` | src/store.js:23-56 | without failures and with harmless swaps memory is the remote store with the pending writes applied |
| `MirrorStore.RefreshIsIdentityExactly` | src/store.js:37-51 | a refresh changes nothing visible exactly when its swap is harmless to every key |
| `MirrorStore.CalmRefreshIsIdentity` | src/store.js:37-51 | a refresh without writes in between changes nothing visible and leaves memory and store alike |
| `MirrorStore.CalmSwapIsExact` | src/store.js:43-47 | and repairs memory, whatever it held |
| `MirrorStore.RefreshIsRecent` | src/store.js:37-51 | after any refresh each record is as of some moment no earlier than the request for it |
| `MirrorStore.CallerSees` | src/store.js:39-51 | who starts a refresh sees nothing older than the call; who joins one sees nothing older than the call that started it |
| `MirrorStore.JoinerMissesHisWrite` | src/store.js:39-39 | and may miss his own write |
| `MirrorStore.PutIsDropped` | src/store.js:42-47 | a write in between can vanish from memory |
| `JsonStrings.BodyReads` | src/crypto.js:28-28 | a written string token reads back, wherever it stands, lone surrogates included |
| `JsonStrings.QuotedIsUnambiguous` | src/crypto.js:28-28 | strings printed alike in front of anything are equal |
| `JsonStrings.OneIsWritten` | src/crypto.js:28-28 | each code unit is written as ECMA-262 has it: itself, a short escape, or four hexadecimal digits |
| `JsonStrings.BodyJoins` | src/crypto.js:28-28 | and a text is written unit by unit, surrogate pairs kept together |
| `CanonicalJson.SortSorts` | src/crypto.js:32-32 | distinct keys come out as they went in, each before the next at the first UTF-16 code unit that differs |
| `CanonicalJson.SameKeysSortAlike` | src/crypto.js:32-32 | objects with the same hashed keys print them in the same order |
| `CanonicalJson.Unambiguous` | src/crypto.js:22-34 | a printed value tells, in front of anything that may follow, where it ends and which value it is |
| `CanonicalJson.CanonicalExactly` | src/crypto.js:22-34 | for any keys and any finite numbers, two values print alike exactly when their hashed keys, in sorted order, have equal normal forms and values that are alike |
| `CanonicalJson.AlikeIsSame` | src/crypto.js:22-34 | with keys in normal form that forgets the order of members and nothing else |
| `CanonicalJson.CanonicalSucceeds` | src/crypto.js:22-31 | the printer throws exactly on values with something unprintable outside "signature" members, whatever the keys |
| `JsonReader.DecimalReads` | src/crypto.js:24-27 | the numeral printed for an integer spells that integer in base ten |
| `JsonReader.ReadsBack` | src/crypto.js:22-34 | a reader of JSON texts gives back the printed value with its hashed members in order and its strings in normal form, and stops behind it |
| `JsonReader.CanonicalReads` | src/crypto.js:22-34 | so the whole canonical text reads back as the value |
| `JsonReader.SentReads` | src/intent.js:38-39 | and parameters read back from the text whose length is limited |
| `CanonicalText.RendersAsPrinted` | src/crypto.js:22-34 | the printed text is the rendering, without white space, of a tree of the JSON grammar |
| `CanonicalText.CanonicalDuplicatesExactly` | src/crypto.js:22-118 | every canonical text is a JSON text, and the scanner finds a name twice in it exactly when two keys of an object have one normal form and its depth counter suffices |
| `CanonicalText.CanonicalIsCleanJson` | src/crypto.js:22-118 | with keys in normal form no name comes twice, and the scanner agrees |
| `DuplicateKeys.HasDuplicateKeys` | src/crypto.js:36-118 | the cursor, the flag and the loops compute the scan, errors answering no |
| `DuplicateKeys.Scanner.ParseVal` | src/crypto.js:62-72 | the value scanner, and that it terminates on every text |
| `DuplicateKeys.Scanner.ParseStr` | src/crypto.js:73-90 | the string scanner |
| `DuplicateKeys.Scanner.ParseObj` | src/crypto.js:91-113 | the object scanner |
| `DuplicateKeys.Scanner.ParseItems` | src/crypto.js:67-67 | the loop over an array |
| `DuplicateKeys.Scanner.ParseMember` | src/crypto.js:98-106 | one turn of the loop over an object: the flag is set exactly when the name came before |
| `DuplicateKeys.StringReads` | src/crypto.js:73-90 | on a string token of the grammar the scanner finds the end and the decoded name |
| `DuplicateKeys.ValueScans` | src/crypto.js:61-113 | on a value of the grammar the scanner stops at its end with the right answer, or throws for depth |
| `DuplicateKeys.ExactOnDocument` | src/crypto.js:36-118 | on a JSON text the answer is yes exactly when an object has two equal decoded names and the depth counter suffices |
| `DuplicateKeys.DuplicatesExactly` | src/crypto.js:36-118 | the same for every text |
| `DuplicateKeys.FiftyLevelsFit` | src/crypto.js:63-63 | fifty levels are never too deep |
| `DuplicateKeys.DepthHidesDuplicates` | src/crypto.js:92-92 | duplicates at every level are found exactly up to fifty objects |
| `AuditChain.AuditLog.Append` | src/audit.js:68-80 | the receipt of the redacted entry for the next number over the last hash, stored by its id |
| `AuditChain.Redact` | src/audit.js:53-67 | the loop replaces the values of sensitive fields and sealed credentials and nothing else |
| `AuditChain.RedactsExactly` | src/audit.js:53-67 | a value is replaced exactly if its name holds one of the words of a secret, in letters of either case, or speaks of a token other than by its number, or if it is a sealed credential under its name; every other member stays |
| `AuditChain.SecretsLeaveNoTrace` | src/audit.js:53-80 | entries that differ only in what is redacted leave the same receipt |
| `AuditChain.AuditLog.Verify` | src/audit.js:131-142 | the loop with its running hash computes the verdict |
| `AuditChain.VerifiedExactly` | src/audit.js:131-142 | a log verifies exactly when every receipt names the hash before it and carries its own |
| `AuditChain.BrokenAtFirst` | src/audit.js:131-142 | otherwise the number of the first receipt that is not linked is reported |
| `AuditChain.HeadFixesLog` | src/audit.js:131-142 | two logs that verify with one count and head are equal receipt by receipt |
| `AuditChain.AppendVerifies` | src/audit.js:68-80 | an append keeps the log verifiable exactly when the entry brings no hash and no other previous hash |
| `AuditChain.ReceiptKeepsEntry` | src/audit.js:74-78 | a receipt holds exactly what the entry says, or else number, id, time and the hash before it, and a request id where the entry has an empty one |
| `AuditChain.StoredExactly` | src/audit.js:79-79 | a record takes the place of the one with its id, or goes to the end |
| `AuditChain.AppendNumbers` | src/audit.js:70-79 | the receipt goes to the end and numbers and ids stay consecutive |
| `AuditChain.LogVerifies` | src/audit.js:68-80 | a log that is only appended to is numbered from one, verifies, and has every earlier state as a prefix |
| `Wire.EncVarint` | adapters/spiffe.js:81-84 | the loop writes the seven-bit groups |
| `Wire.ReadVarint` | adapters/spiffe.js:94-98 | the loop, the ten-byte limit and the conversion to a Number |
| `Wire.DecodeFields` | adapters/spiffe.js:99-110 | the record loop for all wire types |
| `Wire.ParseGrpcFrames` | adapters/spiffe.js:111-116 | the frame loop and its three errors |
| `Wire.VarintRoundTrip` | adapters/spiffe.js:81-98 | anywhere in a buffer, a Number below 2^70 reads back and its end is exact; a larger one is refused |
| `Wire.VarintIsGroups` | adapters/spiffe.js:81-84 | a number is written as its seven-bit groups, lowest first, and no byte is wasted |
| `Wire.NumberReadsGroups` | adapters/spiffe.js:94-98 | a number is read exactly from a varint of at most ten bytes, as the Number nearest to what its groups spell |
| `Wire.NumberRecord` | adapters/spiffe.js:104-104 | a record of kind 0 reads as its number |
| `Wire.FixedRecords` | adapters/spiffe.js:105-106 | kinds 1 and 5 take eight and four bytes, or as many as there are |
| `Wire.OtherRecords` | adapters/spiffe.js:107-107 | the remaining kinds are refused |
| `Wire.NetworkOrder` | adapters/spiffe.js:113-113 | lengths of frames are in network order |
| `Wire.FieldsRoundTrip` | adapters/spiffe.js:85-110 | written text records decode to themselves exactly when all numbers are below 2^28 |
| `Wire.FramesRoundTrip` | adapters/spiffe.js:89-116 | the parser accepts exactly the concatenations of frames and gives their messages |
| `Der.P1363ToDer` | src/oidc.js:29-40 | the loop and the concatenations; other lengths pass unchanged |
| `Der.Part` | src/oidc.js:32-37 | the loop strips leading zero bytes and the sign byte is put back |
| `Der.PartIsInteger` | src/oidc.js:32-37 | each part is a minimal INTEGER of exactly the value of its bytes |
| `Der.DerExactly` | src/oidc.js:29-40 | on 64 bytes the result is the only DER encoding of exactly the two numbers |
| `Der.DerIsInjective` | src/oidc.js:29-40 | no two raw signatures convert alike |

## Left out

- Conflict detection, validation and versions of policies (`src/policy.js:93-150`), and pluggable risk providers, of which the gateway registers none.
- HTTP routing, API keys and roles, metrics, the dashboard, OIDC discovery, X.509 and the Workload API socket.
- Ed25519, ECDSA, ML-DSA, SHA-256, key custody and the envelope encoding: ideal, as said above.
- `GatewayExact.ShapeExactly`: speaks of canonical intents; raw ones are the subject of `Intents`.
- `Intents.RawShapeExactly`: times that are not integers are only known to be refused; parameters hold what a JSON body can hold, infinite numbers included.
- `GatewayAnswers.AllowsExactly`: the organisation's thresholds, the time of day and whether the resource was seen are inputs of the request.
- `GatewayExact.RegistersExactly`: which code a refused registration is answered with is modelled and has no law of its own; nor has that of a refused passport or rotation.
- `GatewayServer.Server.RevokeTarget`: API keys (`src/server.js:873`) are not modelled, so neither is their revocation; revocations kept by a remote store (`src/tokens.js:386-388`) are not either.
- `GatewayServer.Server.IssuePassport`: the descriptive members of a passport, its signature and the counter of its blueprint are not modelled; whether a key is an Ed25519 key is part of the request.
- `Delegation.RegistrationNarrows`: patterns are taken as already in normal form C; the normalisation in `strictStringArray` is not modelled.
- Passports from before keys had numbers (`upgradeLegacy`, `src/tokens.js:61-68`).
- Times of day in policies are minutes; their text form is not parsed.
- Awaits inside one gateway request: each request is one step with one clock reading, as the lock around `execute` makes it for executions.
- Sharing of a record object between memory and a pending write: records are values, so a mutation after `put` does not show in the chained write.
- The other writers of the mirror's remote store (nonces, reservations, `addRevocation`) and its second write path (`src/store.js:62-67`).
- A lost connection during COMMIT whose outcome the client cannot know: in `Reservation` a broken connection has committed nothing.
- Persistence of the replay map to its file, Redis, and the local JSONL audit path.
- The mirror in front of the file backend, which never refreshes (`src/store.js:38`).
- Checkpoints of the audit log and their links, sequence numbers of revocations, `last_seen`.
- `AuditChain.AuditLog.Append`: a store whose last receipt has no string hash, which no append leaves behind, is not modelled faithfully; sequence fields other than integers sort as zero.
- `CanonicalJson.CanonicalExactly`: the text of a number that is not an integer is given as the platform prints it.
- `GatewayWindow.SingleUseExactly`: needs an intent window of at least one second, since with none no intent is ever accepted.
- `Replay.KeysAreUnambiguous`: asks organisation ids to hold no colon, as generated ones do.
- `SeenCache.SeenExactly`: speaks of joined keys; these are unambiguous for normalised resources, which hold no backslash.
- Exhaustion of the JavaScript stack by very deep texts.
