# tpt-identity: a Dafny model of its hard core

This project models the parts of the tpt-identity server whose correctness is hardest to see from
the code, and proves what they promise for all inputs and all runs:

- **Guardian recovery.** Shamir secret sharing over GF(256): the byte loops form a field, any
  threshold shares recover the secret, fewer shares determine nothing.
- **DIDComm envelopes.** AES Key Wrap and its inverse, the key-derivation input, and the whole
  pack/unpack path for anoncrypt and authcrypt.
- **The OIDC token endpoint** as a protocol: authorization codes, refresh-token rotation, device
  codes and pushed requests over every run of calls.
- **The rate limiter**, **the hash-chained audit log**, **SD-JWT selective disclosure**,
  **access-token revocation**, **varints and did:key**, **status lists** and **consent policies**.

`dafny verify dfyconfig.toml` checks everything. One module per component:

| files | component |
|---|---|
| `Gf256`, `Polynomials`, `Lagrange`, `Shamir` | pkg/recovery |
| `KeyWrap`, `DidComm`, `DidCommWire` | pkg/didcomm |
| `OidcSteps`, `OidcProvider`, `OidcRuns`, `OidcLineage`, `OidcDeadlines`, `OidcGrants` | oidc over internal/store |
| `RateLimiter` | api/server.go |
| `AuditLog` | internal/auditlog, api/auditlog.go, internal/store |
| `Strings`, `SdJwt`, `SdJwtIssue`, `SdJwtAccept` | pkg/vc/sdjwt.go |
| `Revocation` | oidc/revocation.go, oidc/introspect.go |
| `Multikey` | pkg/did, pkg/vc/verify.go |
| `StatusList` | pkg/vc/status.go |
| `Consent` | pkg/consent, pkg/schema |
| `Bytes`, `Results`, `Times` | shared |

## How the model is built

- Code that updates accumulators, arrays, tables or fields is a method or a class whose contract
  ties it to a function; the theorems are about those functions and about runs of them.
- Library primitives are parameters. The AES block is any keyed permutation of 16-byte blocks,
  X25519 any operation that commutes on derived public keys and rejects the all-zero point, the
  AEAD any pair where open undoes seal, codecs any pair where decoding undoes encoding. SHA-256
  is an arbitrary function, with 32-byte results where that matters: results that need it collision-free name the two colliding inputs
  instead of assuming they do not exist.
- Numbers, names and bytes that the source fixes are written out in the theorems: lifetimes in
  nanoseconds, claim names, wire bytes, the ten minutes of the rate limiter.
- Random values are arguments. Where the source relies on their freshness, a run is required never
  to mint the same code, token, device code or request_uri twice and never to reuse a session id.
- Each OIDC handler runs as one atomic step and its store writes succeed. The audit logger's read
  and append are kept as two separate steps that interleave freely.
- Time is an argument: nanoseconds in OIDC, revocation and SD-JWT issuing, real seconds in the rate
  limiter, whole seconds in SD-JWT verification. The two clock reads inside `Allow` are one.
- Go strings are byte sequences in DIDComm and character sequences elsewhere. `Multikey` works with
  numbers below 2^64; its bitwise "or" is an addition because the operands share no bits.

## Where the code does not do what its comments say

Each of these is proved, with the exact condition under which the promise holds.

- Authcrypt under an empty sender key ID packs but can never be unpacked
  (`DidComm.AuthcryptIffSenderNamed`).
- `Combine` accepts a share given twice and then returns a wrong secret without an error. It gives
  back every secret, at every threshold the different shares reach, exactly when no share is
  repeated (`Shamir.CombineRecoversIff`); `Shamir.AlwaysRecoversIff` is the condition for one
  threshold.
- Always-visible claims may replace `iss`, `exp` and `_sd`. Presentations then verify exactly under
  the conditions of `SdJwtIssue.PresentationVerifies`.
- `PresentWithKeyBinding` hashes the presentation without its trailing `~`, the verifier with it, so
  a holder's own key binding is accepted only if the two texts collide
  (`SdJwtIssue.OwnKeyBindingIffCollision`). Section 4.3.1 of
  draft-ietf-oauth-selective-disclosure-jwt sides with the verifier.
- The window bound of the rate limiter, and the invisibility of eviction, hold exactly when ten
  minutes refill an empty bucket; the limits `NewServer` builds satisfy this
  (`RateLimiter.WindowBoundIff`, `RateLimiter.EvictionInvisibleIff`).
- Concurrent audit writers can fork the chain. Unless two rows collide, the log is a chain exactly
  when nobody appended between a writer's read and its append (`AuditLog.ChainIffQuiet`,
  `AuditLog.OvertakenWriteForks`).
- A revoked access token is reported active strictly between `exp` and `exp + 1 s`
  (`Revocation.ActiveAfterRevocationIff`).
- Logout's comment promises to revoke the subject's refresh tokens. No stored session names one, so
  the refresh table is left as it was (`OidcLineage.LogoutKeepsRefreshTokens`). The subject is
  without a usable token after logout exactly when there was none before
  (`OidcLineage.LogoutRevokesIff`); `OidcLineage.TokenSurvivesLogout` is a run where one is left.
- The published status list is read up to 16 MiB and `CheckStatus` accepts negative indices, so it
  agrees with the list only on the indices stated (`StatusList.CheckAgreesIff`).
- Revoking a grant closes its ID exactly when no second open grant shares it
  (`Consent.RevocationSilencesIff`). A second one stays open in every run
  (`Consent.SharedIdStaysOpen`).
- `NewPolicy` takes stored grants unvalidated. Extra-sensitive schemas are opened only by confirmed
  grants in every run exactly when the stored ones carried their confirmations
  (`Consent.ConfirmationIff`).

## Model

| member | source | states |
|---|---|---|
| Gf256.GfMul | pkg/recovery/recovery.go:110-124 | the shift-and-add loop computes the product whose field laws are the next rows |
| Gf256.MulComm | pkg/recovery/recovery.go:110-124 | multiplication is commutative for all bytes |
| Gf256.MulAssoc | pkg/recovery/recovery.go:110-124 | multiplication is associative for all bytes |
| Gf256.MulAdd | pkg/recovery/recovery.go:110-124 | multiplication distributes over xor on both sides |
| Gf256.MulOne | pkg/recovery/recovery.go:110-124 | 1 is the unit on both sides |
| Gf256.ModulusRoot | pkg/recovery/recovery.go:106-108 | x satisfies x^8 + x^4 + x^3 + x + 1 = 0, so the field is the one the source names |
| Gf256.Fermat | pkg/recovery/recovery.go:134-148 | a^255 = 1 for every non-zero byte |
| Gf256.GfInv | pkg/recovery/recovery.go:134-148 | the square-and-multiply loop computes a^254, and 0 for 0 |
| Gf256.InvMul | pkg/recovery/recovery.go:134-148 | the inverse inverts: a times gfInv(a) is 1 for every non-zero byte |
| Polynomials.GfPolyEval | pkg/recovery/recovery.go:126-132 | the Horner loop evaluates the coefficient sequence |
| Polynomials.InterpolantPasses | pkg/recovery/recovery.go:57-66 | through any k distinct points passes a polynomial of k coefficients |
| Polynomials.InterpolantUnique | pkg/recovery/recovery.go:57-66 | and only one |
| Lagrange.GfLagrange | pkg/recovery/recovery.go:150-165 | the nested loops compute the Lagrange sum at 0 |
| Lagrange.NumeratorDenominator | pkg/recovery/recovery.go:153-161 | the inner loop multiplies the other abscissae and their differences |
| Lagrange.WeightsSumToOne | pkg/recovery/recovery.go:150-165 | for distinct points the Lagrange weights at 0 add up to 1 |
| Lagrange.InterpolationAtZero | pkg/recovery/recovery.go:150-165 | for distinct points and a polynomial with no more coefficients than points, the sum is the constant coefficient |
| Lagrange.InterpolationAtZeroIff | pkg/recovery/recovery.go:150-165 | for non-zero abscissae the sum is the constant coefficient of every polynomial with no more coefficients than different abscissae exactly when no abscissa is repeated |
| Lagrange.RecoversAtIff | pkg/recovery/recovery.go:150-165 | for any abscissae and any n, the sum recovers every polynomial with n coefficients exactly when it recovers 1, x, ..., x^(n-1) |
| Lagrange.RepeatedHasNoWeight | pkg/recovery/recovery.go:134-165 | a repeated abscissa has weight 0, because its denominator is 0 and gfInv(0) is 0 |
| Shamir.Split | pkg/recovery/recovery.go:42-68 | fails exactly on an empty secret or bad parameters; otherwise share i holds every secret byte's polynomial evaluated at i + 1 |
| Shamir.FillColumn | pkg/recovery/recovery.go:63-65 | fills one byte of every share in place and leaves the others alone |
| Shamir.Combine | pkg/recovery/recovery.go:72-95 | fails exactly on fewer than 2 shares or unequal lengths; otherwise interpolates every byte position |
| Shamir.CombineRecovers | pkg/recovery/recovery.go:40-95 | any threshold or more shares with distinct indices interpolate to the secret at every byte |
| Shamir.CombineRecoversIff | pkg/recovery/recovery.go:70-95 | shares at given non-zero indices bring back every secret, at every threshold the different indices reach, exactly when no index is repeated |
| Shamir.AlwaysRecoversIff | pkg/recovery/recovery.go:70-95 | for one threshold and any indices, repeated or not, every secret comes back exactly when the indices pass a check on their first threshold powers |
| Shamir.RepeatedShareMisleads | pkg/recovery/recovery.go:72-95 | when the indices given once are fewer than the threshold, some non-zero secret byte comes back as 0 |
| Shamir.RecoverFromGuardians | pkg/recovery/recovery.go:40-95 | splitting, handing shares to any threshold guardians in any order, and combining returns the secret, for every choice of coefficients |
| Shamir.FewSharesHideSecret | pkg/recovery/recovery.go:55-66 | with fewer than threshold shares every other secret of the same length explains them, and with threshold - 1 exactly one choice of coefficients does |
| Shamir.FewGuardiansLearnNothing | pkg/recovery/recovery.go:55-66 | the same for the shares Split hands to any fewer than threshold guardians |
| KeyWrap.AesKeyWrap | pkg/didcomm/didcomm.go:417-444 | the doubly nested in-place loop performs the 6n wrap steps in order, with every error case |
| KeyWrap.AesKeyUnwrap | pkg/didcomm/didcomm.go:446-474 | the reversed loops undo the steps in order and check the integrity value |
| KeyWrap.WrapBlock | pkg/didcomm/didcomm.go:432-437 | one wrap step in place on A and block i |
| KeyWrap.UnwrapRound | pkg/didcomm/didcomm.go:461-468 | the inner unwrap loop undoes one round of n steps in place, last block first |
| KeyWrap.UnwrapBlock | pkg/didcomm/didcomm.go:462-467 | one unwrap step in place on A and block i |
| KeyWrap.RunsInvert | pkg/didcomm/didcomm.go:430-469 | any number of wrap steps and unwrap steps are inverse in both directions |
| KeyWrap.UnwrapIffWrap | pkg/didcomm/didcomm.go:417-474 | for all byte strings, unwrapping c gives p exactly when wrapping p gives c |
| KeyWrap.WrapSucceedsIff | pkg/didcomm/didcomm.go:417-427 | wrapping succeeds exactly for two or more whole 8-byte blocks under a 16, 24 or 32-byte key, and adds 8 bytes |
| KeyWrap.WrapUsesKey | pkg/didcomm/didcomm.go:424-437 | the wrapping depends on the block cipher only through its action under the given key |
| KeyWrap.WrapUnderIdentity | pkg/didcomm/didcomm.go:417-444 | under the identity cipher the wrapping is eight bytes 0xA6 with the counters 1 to 6n xored in, followed by the plaintext |
| KeyWrap.WrapUnderSwap | pkg/didcomm/didcomm.go:417-444 | under the cipher that swaps its halves the wrapping is registers 6n, 5n, 5n + 1, ..., 6n - 1 of a recurrence written out over IV, blocks and counters |
| Bytes.Be64Layout | pkg/didcomm/didcomm.go:433-434 | the counter's bytes are its base-256 digits, most significant first |
| Bytes.ByteOfNext | pkg/recovery/recovery.go:63-65 | byte conversion is counting modulo 256 from 0 |
| DidComm.KdfInputInjective | pkg/didcomm/didcomm.go:398-408 | the Concat KDF input of secrets of one length determines secret, algorithm and both parties; a longer secret must continue the shorter one with its length-prefixed algorithm |
| DidComm.EqualKeksBind | pkg/didcomm/didcomm.go:381-411 | equal key-encryption keys come from equal inputs, or from a longer secret that continues the shorter as above, or the two inputs are a SHA-256 collision |
| DidComm.AgreementsApart | pkg/didcomm/didcomm.go:337-375 | an ECDH-ES key equals an ECDH-1PU key only if the sender's secret begins with the length-prefixed name of ECDH-ES, or the two inputs collide |
| DidCommWire.KdfLayout | pkg/didcomm/didcomm.go:398-408 | the hashed bytes are counter 1, secret, length-prefixed algorithm and parties, and 256, in that order |
| DidCommWire.KeksAre | pkg/didcomm/didcomm.go:337-375 | each of the four key derivations hashes the X25519 results it should, ephemeral before static |
| DidCommWire.ClampIs | pkg/didcomm/didcomm.go:498-500 | clamping clears and sets exactly the bits RFC 7748 names |
| DidCommWire.HeaderIs | pkg/didcomm/didcomm.go:129-152 | the protected header holds the named media type, algorithms, sender and the hash of the dot-joined sorted key IDs |
| DidComm.PackEnvelope | pkg/didcomm/didcomm.go:119-216 | builds header, one entry per recipient and sealed content, stopping at the first failure |
| DidComm.MakeEntry | pkg/didcomm/didcomm.go:161-193 | one recipient's ephemeral key, key agreement and wrapped content key |
| DidCommWire.PackIff | pkg/didcomm/didcomm.go:119-216 | packing yields these bytes exactly when they are an envelope with that header, one rightly addressed entry per recipient in order, and the message sealed with a 16-byte tag over the header |
| DidCommWire.EntryIff | pkg/didcomm/didcomm.go:161-193 | an entry is written exactly when it carries the ephemeral key and the content key wrapped under the agreed key |
| DidComm.UnpackEnvelope | pkg/didcomm/didcomm.go:227-333 | parses, resolves the sender, takes the first entry that opens, decrypts |
| DidComm.TryEntry | pkg/didcomm/didcomm.go:261-303 | one entry yields the content key or is skipped, in the source's order of checks |
| DidCommWire.YieldsIff | pkg/didcomm/didcomm.go:261-303 | an entry yields the content key exactly when the stored bytes are that key wrapped under what the keyring's key agrees on |
| DidCommWire.UnpackIff | pkg/didcomm/didcomm.go:227-333 | for any bytes, unpacking gives a message and sender exactly when the header names that sender, the directory knows them, a first entry yields the key and the content opens under it with the header |
| DidComm.EntryOpens | pkg/didcomm/didcomm.go:337-375 | the recipient side of either key agreement opens what the sender side wrapped |
| DidComm.UnpackReturnsMessage | pkg/didcomm/didcomm.go:119-333 | unpacking a packed message succeeds exactly if the keyring knows some recipient, and returns message and sender ID |
| DidComm.AnyOneRecipientUnpacks | pkg/didcomm/didcomm.go:119-333 | with distinct key IDs the private key of any one recipient is enough |
| DidComm.EmptySenderIdNeverUnpacks | pkg/didcomm/didcomm.go:246-287 | authcrypt under an empty sender ID is rejected by every keyring and directory |
| DidComm.AuthcryptIffSenderNamed | pkg/didcomm/didcomm.go:140-144 | authcrypt round-trips exactly when the sender key ID is not empty |
| OidcProvider.Provider.Serve | oidc/provider.go:50-309 | a run of calls served by the handlers leaves the tables and outcomes the run theorems speak about, and honours nothing twice |
| OidcProvider.Provider.Dispatch | oidc/provider.go:142-168 | one call, routed to its handler, performs its step and keeps codes and user codes unique |
| OidcProvider.Provider.ResolveParRequest | oidc/par.go:91-106 | a request_uri is deleted on first use and yields its parameters unless expired |
| OidcProvider.Provider.AuthorizeHandler | oidc/provider.go:50-140 | performs the authorize step: PAR resolution, the checks in order, a new session |
| OidcProvider.Provider.CheckAuthorize | oidc/provider.go:69-106 | the parameter checks, including mandatory S256 PKCE and the redirect list |
| OidcProvider.Provider.IssueSessionForDid | oidc/provider.go:381-402 | the bridge's session step |
| OidcProvider.Provider.FindSession | internal/store/sqlite.go:529-531 | finds a session by code, or none exists |
| OidcProvider.Provider.HandleAuthCodeExchange | oidc/provider.go:170-246 | performs the code exchange step and deletes the session |
| OidcProvider.Provider.HandleRefreshTokenGrant | oidc/provider.go:248-309 | performs the rotation step, deleting expired and replayed tokens |
| OidcProvider.Provider.DeviceAuthorizationHandler | oidc/device.go:24-74 | performs the device start step, refusing a taken user code |
| OidcProvider.Provider.FindDevice | internal/store/sqlite.go:1309-1314 | finds a device code by user code, or none exists |
| OidcProvider.Provider.DeviceApproveHandler | oidc/device.go:106-131 | performs the approval step |
| OidcProvider.Provider.HandleDeviceGrant | oidc/device.go:134-197 | performs the device grant step and deletes the device code |
| OidcProvider.Provider.ParHandler | oidc/par.go:20-87 | performs the push step |
| OidcProvider.Provider.RevokeHandler | oidc/revocation.go:45-85 | performs the refresh-token half of revocation, ignoring another client's token |
| OidcProvider.Provider.LogoutHandler | oidc/logout.go:17-44 | performs the logout step |
| OidcProvider.Provider.DeleteSessions | oidc/logout.go:35-40 | deletes the listed sessions and the refresh tokens they name |
| OidcProvider.Provider.DeleteSession | oidc/logout.go:36-39 | deletes one session and the refresh token it names |
| OidcRuns.StepConserves | oidc/provider.go:50-309 | every step of every handler spends only live tickets, kills what it spends and revives nothing it did not mint |
| OidcRuns.HonouredAtMostOnce | oidc/provider.go:170-309 | over every run each code, refresh token, device code and request_uri is honoured at most once |
| OidcRuns.DeadStaysDead | oidc/revocation.go:74-85 | a ticket dead by use, revocation, expiry or logout is never honoured again in any run |
| OidcLineage.StepLineage | oidc/provider.go:170-309 | every step keeps the provenance invariant of sessions, device codes and refresh tokens |
| OidcLineage.EveryTokenIsRooted | oidc/provider.go:179-240 | in every reachable state a refresh token carries the subject, client and scope of the redeemed code or approved device code at its root, and a code root was redeemed with a verifier matching its challenge |
| OidcLineage.OneLiveTokenPerChain | oidc/provider.go:279-306 | a rotation chain never has two usable tokens |
| OidcLineage.LogoutKeepsRefreshTokens | oidc/logout.go:15-44 | in every reachable state logout leaves the refresh table unchanged |
| OidcLineage.LogoutRevokesIff | oidc/logout.go:15-44 | in every reachable state the subject is without a usable refresh token after logout exactly when there was none before |
| OidcLineage.TokenSurvivesLogout | oidc/logout.go:31-44 | for every subject a fresh run of registration, authorization and exchange leaves a usable token, and logout leaves it too |
| OidcDeadlines.StepPunctual | oidc/provider.go:179-309 | no step honours an expired ticket or extends a deadline |
| OidcDeadlines.HonouredInTime | oidc/provider.go:20-25 | over every run tickets are honoured only within their lifetime from issue: 5 minutes, 30 days, 15 minutes, 90 seconds |
| OidcDeadlines.PushedParametersWin | oidc/provider.go:53-67 | an authorization through a request_uri is for the client that authenticated at the push and carries every parameter pushed under that URI |
| OidcGrants.OnlyProvenClients | oidc/provider.go:418-440 | over every run codes are redeemed, tokens rotated, device codes started and requests pushed only for a registered client that is public or whose presented secret hashes to the registered one |
| OidcGrants.AuthorizeIff | oidc/provider.go:50-140 | a code is issued exactly for a subject, a state, an S256 challenge, a registered client and one of its redirect URIs, taken from the effective parameters; the session stored and the request_uri removed |
| OidcGrants.IssueSessionIs | oidc/provider.go:381-402 | the bridge's session keeps what it was given and gets a code for five minutes |
| OidcGrants.ExchangeIff | oidc/provider.go:170-246 | a code is redeemed exactly in time, by its client, with the matching verifier and a proven client; one 30-day token is stored, the session removed, and nothing changes otherwise |
| OidcGrants.RefreshIff | oidc/provider.go:248-309 | a token is rotated exactly when stored, unused, in time and its client proven; stale ones are removed, and nothing changes otherwise |
| OidcGrants.StartDeviceIff | oidc/device.go:24-74 | a device code is started exactly for a proven client under a free user code, for 15 minutes |
| OidcGrants.ApproveDeviceIff | oidc/device.go:106-131 | approval marks exactly the valid device code the upper-cased user code names |
| OidcGrants.DeviceGrantIff | oidc/device.go:134-197 | a device code is redeemed exactly when approved, not denied, in time and asked for by its client; expired and denied ones are removed |
| OidcGrants.PushIff | oidc/par.go:20-87 | a request is stored exactly for a proven client with a registered redirect URI: every non-empty parameter, for 90 seconds |
| OidcGrants.RevokeIff | oidc/revocation.go:45-85 | exactly the named refresh token is removed, for its proven owner or an anonymous caller |
| OidcGrants.RevokedNeverRotates | oidc/revocation.go:74-85 | over every run a revoked refresh token is gone and never rotated later |
| OidcGrants.LogoutEndsSessions | oidc/logout.go:31-44 | logout removes the subject's unexpired sessions and all expired ones, and keeps the rest |
| OidcGrants.SessionMaintenance | internal/store/sqlite.go:550-558 | deleting removes one row, purging exactly the expired ones |
| OidcGrants.UpsertsKeepOwners | internal/store/sqlite.go:505-689 | a conflicting insert never changes whom a session, refresh token or device code belongs to |
| OidcGrants.ExchangeErrors | oidc/provider.go:170-215 | when a code exchange is an invalid request, grant or client |
| OidcGrants.RefreshErrors | oidc/provider.go:248-277 | when a refresh is an invalid request, grant or client |
| OidcGrants.DeviceErrors | oidc/device.go:134-168 | when a poll answers pending, expired, denied or wrong client |
| OidcGrants.OtherErrors | oidc/par.go:20-50 | the remaining error codes of device start, device grant, exchange, revocation and push |
| OidcGrants.AuthorizeErrors | oidc/provider.go:50-106 | when the authorization endpoint answers bad request, invalid request or unauthorized client |
| RateLimiter.IpRateLimiter.Allow | api/server.go:481-501 | refill, cap, and take one token if there is one |
| RateLimiter.IpRateLimiter.Evict | api/server.go:503-512 | drops exactly the buckets idle for more than ten minutes |
| RateLimiter.WindowBound | api/server.go:481-512 | in any window of any schedule one address is allowed at most capacity + rate * d requests |
| RateLimiter.WindowBoundFails | api/server.go:503-512 | when ten minutes do not refill a bucket, some schedule breaks the bound |
| RateLimiter.WindowBoundIff | api/server.go:481-512 | the bound holds on all schedules exactly when capacity <= 600 * rate |
| RateLimiter.EvictionInvisibleIff | api/server.go:503-512 | evicting and never evicting give the same answers on all schedules exactly when capacity <= 600 * rate |
| RateLimiter.ServerLimitsRefill | api/server.go:131 | the limits NewServer builds meet that condition |
| RateLimiter.SteadyCallerNeverRefused | api/server.go:481-501 | with capacity >= 1 a caller spacing requests by a token's time is never refused, whatever other addresses and sweeps do |
| RateLimiter.FreshBurst | api/server.go:481-501 | a new address is allowed exactly capacity requests at once |
| RateLimiter.RefusalsUnseenIff | api/server.go:481-512 | refused requests change no later answer on any schedule exactly when capacity <= 600 * rate |
| AuditLog.AuditStore.AppendAuditEvent | internal/store/sqlite.go:1076-1095 | appends one row numbered next, hashed over type, payload and previous hash |
| AuditLog.AuditStore.GetAuditHead | internal/store/sqlite.go:1097-1101 | none exactly for an empty log, otherwise the row numbered higher than all others, with the hash writers chain to |
| AuditLog.AuditStore.Handle | internal/auditlog/auditlog.go:30-46 | undisturbed, the logger keeps the log a hash chain |
| AuditLog.HeadHashFixesLog | internal/store/sqlite.go:1076-1079 | equal head hashes fix every event type, payload and previous hash back to the start, or two rows collide |
| AuditLog.RowHashIs | internal/store/sqlite.go:1076-1079 | in every well-formed log a row's hash is the hash of previous hash and JSON of event type, payload and previous hash |
| AuditLog.EveryRunIsForest | internal/auditlog/auditlog.go:37-43 | however writers interleave, each previous hash is empty or an earlier row's hash, and stored hashes recompute |
| AuditLog.ChainIffQuiet | internal/auditlog/auditlog.go:37-43 | if no row was appended between any writer's read and its append, the log is a chain; if it is a chain, that was so, or two of its rows collide |
| AuditLog.OvertakenWriteForks | internal/auditlog/auditlog.go:37-43 | two writers that read the same head before either writes hang both entries off it, whatever the log was; from an empty log the result is never a chain |
| AuditLog.ProofIsRange | api/auditlog.go:26-63 | the proof names the head that was read by number and hash and holds rows fromSeq to it, at most 1000, whatever was appended meanwhile; it reaches that head exactly when at most 1000 rows are asked for |
| Strings.SplitJoin | pkg/vc/sdjwt.go:155-163 | splitting at "~" undoes joining parts that contain none |
| Strings.SplitIs | pkg/vc/sdjwt.go:268 | the parts hold no "~" and join to the text again |
| Strings.Split3Iff | pkg/vc/sdjwt.go:469-472 | three parts are found exactly when the text is them joined by its first two dots |
| SdJwt.ParseEncode | pkg/vc/sdjwt.go:53-94 | a disclosure survives encoding and parsing, and its text has no "~" or "." |
| SdJwt.SignedJwt | pkg/vc/sdjwt.go:451-495 | a signed JWT has two dots, checks under its key and yields its claims back |
| SdJwt.Present | pkg/vc/sdjwt.go:118-163 | serializes the JWT with the disclosures whose keys were chosen, in order |
| SdJwt.ParseSdJwt | pkg/vc/sdjwt.go:264-285 | separates JWT, disclosures and key-binding token of any string |
| SdJwt.ParseSerialized | pkg/vc/sdjwt.go:155-285 | every presentation, bare or with a key-binding token, parses back into its parts |
| SdJwt.VerifySdJwt | pkg/vc/sdjwt.go:322-425 | the checks in order: issuer, signature, expiry, disclosures, key binding; every field of the result |
| SdJwtAccept.VerifyIff | pkg/vc/sdjwt.go:322-425 | for every string: accepted exactly when the library accepts the signature under the key of the named issuer, it has not expired, every disclosure's fingerprint is signed, and a key-binding token, if there, is the holder's for this nonce, audience and presentation |
| SdJwtAccept.SigIff | pkg/vc/sdjwt.go:468-482 | a token is signed exactly when the library accepts its decoded third part over the first two |
| SdJwtAccept.PayloadIff | pkg/vc/sdjwt.go:484-497 | its claims are the decoded second part |
| SdJwtAccept.VouchedIff | pkg/vc/sdjwt.go:62-94 | a disclosure counts exactly when it decodes to salt, key and value whose twice-encoded hash is among the signed strings |
| SdJwtAccept.BoundIff | pkg/vc/sdjwt.go:501-531 | a key-binding token is good exactly when signed by the holder with the expected nonce and audience and the presentation's hash |
| SdJwtAccept.HolderIff | pkg/vc/sdjwt.go:546-572 | the holder's key is the 32-byte OKP key of cnf.jwk |
| SdJwtAccept.SortIs | pkg/vc/sdjwt.go:272-284 | disclosures are the non-empty parts without two dots in order, the key-binding token the last part with two |
| SdJwtAccept.VerifiedShows | pkg/vc/sdjwt.go:396-425 | the result repeats issuer, subject, type, times and the remaining claims of the accepted token |
| SdJwtAccept.ShownIff | pkg/vc/sdjwt.go:366-381 | a claim is shown exactly when it was disclosed |
| SdJwtAccept.DisclosedIs | pkg/vc/sdjwt.go:366-381 | with the value of its last disclosure |
| SdJwtAccept.Names | pkg/vc/sdjwt.go:225-237 | the claim names |
| SdJwtIssue.IssueSdJwt | pkg/vc/sdjwt.go:189-247 | one salted disclosure and digest per selective claim, in any order, signed with the visible claims |
| SdJwtAccept.IssueIff | pkg/vc/sdjwt.go:189-247 | issuing succeeds exactly for a durable issuer with key, subject and known schema; the token is signed over the written-out claims with one disclosure per drawn claim |
| SdJwtAccept.SignJwtIs | pkg/vc/sdjwt.go:451-465 | a signed token is the encoded header, the encoded claims and the signature over both |
| SdJwtAccept.HolderTokenIs | pkg/vc/sdjwt.go:135-153 | the holder's token names nonce, audience and time and hashes the presentation without its last "~" |
| SdJwtIssue.PresentationVerifies | pkg/vc/sdjwt.go:118-425 | for any always-visible claims, a presentation of an issued token verifies exactly when the issuer it names resolves to its key, the expiry it carries has not passed and its digests list what is disclosed; it then discloses exactly the chosen claims |
| SdJwtIssue.PlainPresentationVerifies | pkg/vc/sdjwt.go:118-425 | without reserved names among those claims and with the issuer's key published, every presentation verifies exactly until the expiry it was issued with |
| SdJwtIssue.DisclosedWasIssued | pkg/vc/sdjwt.go:356-381 | whatever string is accepted over an issued JWT, each disclosed claim was issued with that value, or its digest was put by hand into an always-visible _sd, or a presented disclosure collides with an issued one |
| SdJwtIssue.VerifierHashesBase | pkg/vc/sdjwt.go:533-542 | the verifier hashes exactly the string the key-binding token was appended to |
| SdJwtIssue.HashBinds | pkg/vc/sdjwt.go:533-542 | one sd_hash fits one JWT and one ordered disclosure list, or the two presentations collide |
| SdJwtIssue.KeyBindingIff | pkg/vc/sdjwt.go:501-531 | over any token bound to the holder's key, a key-binding token is accepted exactly when the bare presentation verifies and the sd_hash is its hash |
| SdJwtIssue.OwnKeyBindingIffCollision | pkg/vc/sdjwt.go:135-153 | over any token bound to the holder's key, PresentWithKeyBinding's own output is accepted exactly when the bare presentation verifies and its trimmed and full text collide |
| Revocation.RevocationList.IsAccessTokenRevoked | oidc/revocation.go:25-41 | looks the token up and forgets it once expired |
| Revocation.RevocationList.RevokeAccessToken | oidc/revocation.go:86-98 | records a parseable, unexpired token until its expiry |
| Revocation.RevocationList.IntrospectHandler | oidc/introspect.go:23-71 | active exactly if valid and not listed |
| Revocation.ActiveAfterRevocationIff | oidc/revocation.go:25-41 | after a recorded revocation, in any run, introspection reports the token active exactly if it is signed correctly and the time lies strictly between exp and exp + 1 s |
| Revocation.NeverActiveInWholeSeconds | oidc/jwt.go:107-109 | on a clock of whole seconds it is never reported active |
| Revocation.ActiveIff | oidc/introspect.go:23-71 | over every run a token is active exactly when signed, before exp + 1 s, and not revoked in time unless strictly past exp |
| Multikey.Uvarint | pkg/did/web.go:245-255 | the loop writes the base-128 digits and never overruns its 10 bytes |
| Multikey.DecodeUvarint | pkg/did/key.go:107-118 | the loop decodes from the first byte, or (0, 0) |
| Multikey.VarintRoundTrip | pkg/did/key.go:107-118 | every uint64 decodes to itself and its length in front of any suffix |
| Multikey.MultibaseRoundTrip | pkg/vc/verify.go:185-209 | every 32-byte key survives encoding under any codec, on the multibase and the fallback path |
| Multikey.KeyDidRoundTrip | pkg/did/key.go:36-69 | a did:key resolves to the key it was made from and its document publishes that key |
| Multikey.VarintIs | pkg/did/web.go:245-255 | the digits of a varint spell the number, and all but the last carry the high bit |
| Multikey.Unterminated | pkg/did/key.go:107-118 | bytes that never end a varint decode to (0, 0) |
| Multikey.MultibaseIs | pkg/did/web.go:233-243 | the multibase text, its fallback, and when a key is read back from a text |
| Multikey.KeyDidIs | pkg/did/key.go:60-69 | a did:key is "did:key:" and the multibase text of 0xed 0x01 and the key |
| Multikey.ResolveIff | pkg/did/key.go:36-58 | a did:key resolves to a key exactly when it decodes to the code 0xed and those 32 bytes |
| Multikey.OtherCodecRefused | pkg/did/key.go:36-58 | every other code is refused |
| StatusList.StatusList.constructor | pkg/vc/status.go:32-38 | an empty list of at least the minimum and the requested size, rounded up to whole bytes |
| StatusList.StatusList.Revoke | pkg/vc/status.go:41-49 | adds exactly that index to the revoked set, or refuses |
| StatusList.StatusList.Unrevoke | pkg/vc/status.go:52-60 | removes exactly that index, or refuses |
| StatusList.StatusList.IsRevoked | pkg/vc/status.go:63-70 | membership in the revoked set, or out of range |
| StatusList.PutClear | pkg/vc/status.go:47-58 | setting and clearing a bit changes membership of that index alone |
| StatusList.BitPosition | pkg/vc/status.go:47-69 | index i is bit i % 8 of byte i / 8, least significant first |
| StatusList.BitsRefineSet | pkg/vc/status.go:40-70 | after any calls the bytes stand for exactly the revoked indices |
| StatusList.CheckAgreesIff | pkg/vc/status.go:160-193 | the check on the published bytes agrees with the list exactly on the stated indices |
| StatusList.CheckBelowZero | pkg/vc/status.go:183-189 | what the check does for negative indices |
| Consent.VersionedResolvesIff | pkg/schema/registry.go:103-131 | a versioned ID resolves to its base schema exactly when no other schema is registered under it, and never for an empty base ID |
| Consent.OnlyNumbersAreVersions | pkg/schema/registry.go:123-131 | a suffix that is not a number names no version |
| Consent.Policy.CanAccess | pkg/consent/policy.go:53-95 | succeeds exactly when a live grant covers the schema |
| Consent.AccessIff | pkg/consent/policy.go:53-95 | access exactly when the schema is known and a grant of this subject to this party, not withdrawn and not expired, is for it or, confirmed, for its category unless extra-sensitive |
| Consent.AcceptIff | pkg/consent/policy.go:128-152 | which grants validation accepts |
| Consent.RevokeIs | pkg/consent/policy.go:111-126 | revoking marks the first grant with the ID with the time, unless marked, and no other |
| Consent.Policy.AddGrant | pkg/consent/policy.go:99-107 | appends exactly the grants that pass validation |
| Consent.Policy.RevokeGrant | pkg/consent/policy.go:111-126 | marks the first grant with the ID unless it is marked already |
| Consent.RunKeeps | pkg/consent/policy.go:97-126 | over every run no record is removed or altered but for its revocation mark |
| Consent.ConfirmationIff | pkg/consent/policy.go:46-152 | from any stored grants, extra-sensitive schemas are opened only by confirmed schema-level grants in every run exactly when no open stored grant lacks a needed confirmation |
| Consent.UnconfirmedOpens | pkg/consent/policy.go:46-95 | a stored schema-level grant without its confirmation opens an extra-sensitive schema |
| Consent.ExtraSensitiveNeedsConfirmation | pkg/consent/policy.go:51-95 | from such stored grants, extra-sensitive access in every reachable policy rests on a live, confirmed, schema-level grant |
| Consent.RevocationSilencesIff | pkg/consent/policy.go:109-126 | a successful revocation closes its ID exactly when no second open grant shares it |
| Consent.SharedIdStaysOpen | pkg/consent/policy.go:109-126 | a second open grant under the same ID stays exactly as it is in every run |
| Consent.RevokedNeverOpensAgain | pkg/consent/policy.go:109-126 | with unique IDs a revoked ID stays closed for the rest of every run |

## Left out

- Cryptographic primitives (AES block, X25519, XChaCha20-Poly1305, SHA-256, Ed25519) and the JSON, base64, base58, gzip libraries: parameters with the laws above.
- JSON values in SD-JWT: numbers are integers, so re-encoding is exact; fractional expiries are not modelled.
- Error texts: results carry the error code or one text per failure; two causes that the source words differently may share one.
- Interleaving inside one OIDC handler: each handler is one step, so single use is stated for atomic handlers.
- Failing store writes and failing random generators: both are taken to succeed.
- The client-credentials, token-exchange and step-up grants, userinfo, discovery, registration, OID4VCI and OID4VP: they keep none of the tables modelled here; clients may change arbitrarily between steps.
- The access-token branch inside OidcProvider.Provider.RevokeHandler: modelled separately in `Revocation`.
- DIDComm's sort of recipient key IDs: a parameter, since only the sender uses the order.
- Floating-point rounding in the rate limiter: exact real arithmetic.
- Shamir.CombineRecovers: stated for distinct shares; Shamir.CombineRecoversIff and Shamir.AlwaysRecoversIff say what repeated shares do.
- Share.Hex and ParseHex, NewRecoveryToken, and the recovery API's approval counter.
- Paging in handleListAuditLog, and rows deleted from the audit table by hand.
- StatusList.CheckAgreesIff: stated for a non-empty bitstring, which every list has.
- Multikey.VarintRoundTrip: overlong varints, which the decoder accepts, are not characterised.
- Signing of status-list credentials, watermarks, DID resolution over the network, SAML, LDAP, WebAuthn and the external bridges.
