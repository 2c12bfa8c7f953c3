# OAuth exchange-code store

The auth router of this server signs users in with Google. The provider's
callback reaches the server through a cross-site redirect, where browsers
refuse to store a session cookie. So the callback does not set a cookie.
It mints a short-lived, single-use exchange code, keeps it in a
process-wide table (`oauthCodes`, code -> `{ payload, expiresAt }`), and
redirects the browser with only that code. The client then posts the code
to `/exchange-code`, which redeems it and issues the session. A timer
sweeps expired codes out of the table every 30 seconds.

This project models that table and its three operations:

- **mint**: `set(code, { payload, expiresAt: now + 60000 })`.
- **redeem**:
  - A missing code gives 400 "Code is required" and leaves the table alone.
  - An unknown or expired code is deleted and gives 401 "Invalid or expired code".
  - Otherwise the entry is deleted and its payload is returned.
- **reap**: delete every entry with `expiresAt < now`.

The model proves round trip, one-time use, expiry, locality and idempotence
for these operations. It also proves lifecycle facts about any interleaving
of calls.

Files:

- `exchange.dfy`, module `OAuthExchange`, holds the value view:
  - the entry and request-field types;
  - the `!code` truthiness test;
  - the well-formedness of minted codes (64 lower-case hex digits);
  - each operation as a function on `map<Code, Entry<P>>` (`AfterMint`, `RedeemResult`, `AfterRedeem`, `Reaped`).
- `code_store.dfy`, module `OAuthCodeStore`, holds the class `CodeStore<P>`:
  - its `codes` map is reassigned in place by `Mint`, `Redeem` and `Reap`;
  - `Reap` is a loop that visits every key once and deletes expired entries, with its invariants;
  - each method is proved equal to the corresponding function.
- `code_store.dfy`, module `OAuthSignInFlow`, is a client: one sign-in (callback, exchange, replay) driven through the class.
- `exchange_properties.dfy`, module `OAuthExchangeProperties`, holds the lemmas:
  - single-operation lemmas;
  - a trace semantics (`Op`, `Apply`, `Run`, `Successes`, `RedeemAll`) and lemmas about any sequence of calls.

Modelling choices:

- Time is a parameter, in integer milliseconds.
- The payload is a type parameter.
- The random code is a parameter that must have the shape of 32 hex-encoded bytes.
- Freshness of a code (no collision in the random source) is a hypothesis of the lemmas that need it. `Mint`, like `Map.set`, overwrites a key that is already present.
- The request field is a JSON value. `!code` treats `undefined`, `null`, `false`, `0` and `""` as missing. A truthy value that is not a string is never a key of the table, so it is refused and the delete is a no-op.
- Expiry is the strict test `expiresAt < now`, both in the sweep (server/src/routes/auth.routes.js:21) and in the exchange handler (server/src/routes/auth.routes.js:30). An entry is still redeemable, and is not swept, at the very millisecond it expires.

## Model

| member | source | states |
|---|---|---|
| OAuthCodeStore.CodeStore.constructor | server/src/routes/auth.routes.js:13 | the table starts empty, with every key well-formed |
| OAuthCodeStore.CodeStore.Mint | server/src/routes/auth.routes.js:98-99 | the new table is the old one with `code` bound to the payload and expiry `now + TTL`, and keys stay well-formed; when the code was not already a key, the table grows by exactly one |
| OAuthCodeStore.CodeStore.Redeem | server/src/routes/auth.routes.js:25-39 | the answer and the new table are those of `RedeemResult` and `AfterRedeem` on the old table: missing code -> 400 with table untouched; absent or expired -> 401 with the key deleted; otherwise the payload, with the key deleted; a code that is a key of the table is never answered as missing |
| OAuthCodeStore.CodeStore.Reap | server/src/routes/auth.routes.js:18-23 | the sweep loop, visiting each key once and deleting during the visit, leaves exactly the entries with `expiresAt >= now`, unchanged |
| OAuthSignInFlow.CallbackThenExchange | server/src/routes/auth.routes.js:29-38 | through the class alone: a code minted at `t` and redeemed by `t + TTL` yields the minted payload, and an immediate replay is refused |
| OAuthExchangeProperties.HexCodeIsPresent | server/src/routes/auth.routes.js:98 | a hex-encoded 32-byte code always passes the `!code` missing-input test |
| OAuthExchangeProperties.MintThenRedeem | server/src/routes/auth.routes.js:99 | round trip, both directions in `now`: after minting P under a code at `t`, redeeming it returns exactly P when `now <= t + 60000` and "Invalid or expired" when `now > t + 60000` |
| OAuthExchangeProperties.MintThenRedeemRestores | server/src/routes/auth.routes.js:35 | minting a fresh code and then redeeming it, in time or late, leaves the table exactly as it was before the mint |
| OAuthExchangeProperties.MintAddsOneEntry | server/src/routes/auth.routes.js:15 | mint of a fresh code adds exactly that key (size + 1), with expiry `now + 60000` and the given payload; every other entry is unchanged |
| OAuthExchangeProperties.MintKeepsWellFormed | server/src/routes/auth.routes.js:98-99 | minting a hex code keeps every key a well-formed code |
| OAuthExchangeProperties.MissingCodeLeavesTable | server/src/routes/auth.routes.js:26-27 | any falsy code field gives "Code is required" and leaves the table unchanged |
| OAuthExchangeProperties.RedeemSucceedsIff | server/src/routes/auth.routes.js:29-33 | a present string code succeeds if and only if it is a key whose expiry is `>= now`; on success the stored payload is returned; every failure is the same "Invalid or expired" error |
| OAuthExchangeProperties.RedeemExpired | server/src/routes/auth.routes.js:30-32 | in a table of well-formed codes, an entry with `expiresAt < now` is refused and removed, and only that key is removed |
| OAuthExchangeProperties.RedeemNonString | server/src/routes/auth.routes.js:29-32 | a truthy code that is not a string is refused and the table is unchanged |
| OAuthExchangeProperties.RedeemIsOneTime | server/src/routes/auth.routes.js:35 | after a successful redeem the code is no longer a key, and a second redeem at any time is refused |
| OAuthExchangeProperties.RedeemTouchesOnlyItsCode | server/src/routes/auth.routes.js:31 | redeem, successful or not, only removes keys, and every key other than the requested code keeps its entry |
| OAuthExchangeProperties.ReapRemovesExactlyExpired | server/src/routes/auth.routes.js:20-22 | after a sweep at `now`, a key remains if and only if it was present with `expiresAt >= now`; remaining entries are unchanged, and all have `expiresAt >= now` |
| OAuthExchangeProperties.ReapIdempotent | server/src/routes/auth.routes.js:21 | sweeping twice at the same time gives the same table as sweeping once |
| OAuthExchangeProperties.ReapInvisibleToRedeem | server/src/routes/auth.routes.js:18-33 | a sweep at `t` changes no redemption answer at any `now >= t`, so expiry and one-time use never rely on the sweep having run |
| OAuthExchangeProperties.RunNeverCreates | server/src/routes/auth.routes.js:18-35 | over any sequence of sweeps, redemptions and mints of other codes, an entry under `c` is never created, resurrected or altered; it can only disappear |
| OAuthExchangeProperties.RunKeepsWellFormed | server/src/routes/auth.routes.js:99 | over any sequence of calls that mints only hex codes, every key stays a well-formed code |
| OAuthExchangeProperties.OneTimeUseAcrossCalls | server/src/routes/auth.routes.js:35 | once a code is redeemed, it stays refused through any later calls that do not re-mint it |
| OAuthExchangeProperties.ExpiredStaysRefused | server/src/routes/auth.routes.js:30 | once a code's expiry is before `t0`, no calls that do not re-mint it make it redeemable at any time from `t0` on, whether or not a sweep ran |
| OAuthExchangeProperties.AtMostOneSuccess | server/src/routes/auth.routes.js:29-35 | replay protection: over any sequence of calls that does not re-mint `c`, at most one redemption of `c` succeeds, and none does if `c` was not a key at the start |
| OAuthExchangeProperties.FirstRedemptionWins | server/src/routes/auth.routes.js:29-38 | in a table of well-formed codes, K redemptions of a live code, all before its expiry: the first returns the stored payload, and all K-1 others are refused |
| OAuthExchangeProperties.UsedCodeAlwaysRefused | server/src/routes/auth.routes.js:30-32 | every redemption, at any time, of a code that is not a key is refused |

## Left out

- Timer scheduling of the sweep (`setInterval`, every 30 seconds). The sweep is the explicit `Reap(now)`. The bound "no entry outlives its expiry by more than one interval" depends on the runtime's timer and is not stated.
- The secure random source (`crypto.randomBytes(32).toString("hex")`). The code is a parameter of the required hex shape. Collision resistance cannot be verified, so freshness is a hypothesis of the lemmas that need it.
- The clock (`Date.now()`): time is a parameter. The exchange handler reads the clock once per request, so one `now` per call is faithful.
- Iteration order of the JavaScript `Map`. The sweep visits keys in an arbitrary order. Its result does not depend on order, and the sweep adds no keys.
- Session issuance (`generateToken`, loaded by a dynamic import). Redemption returns the payload that would be handed to it.
- HTTP responses. The 200/400/401 responses are the `Ok`, `MissingCode` and `InvalidOrExpired` outcomes.
- The default payload `req.user || {}`. The payload is opaque and generic.
- A request with no parsed body, where destructuring `req.body` throws. The body is assumed to be a parsed JSON object.
- The Google strategy checks, redirects and the `CLIENT_URL` fallback. They are external plumbing.
- The register, login and logout controllers. They are not part of this model.
- Concurrency. Node runs the exchange handler with no `await` between the lookup and the delete, so the model is sequential. The "exactly one of K racing redemptions wins" property is stated for K redemptions in sequence (`FirstRedemptionWins`, `AtMostOneSuccess`).
- The client page `client/src/pages/Auth/OAuthCallback.jsx` (navigation on the fetch result, with a re-entry guard). It is not part of this model.
- `server/db.config.js` (database client construction). It is not part of this model.
