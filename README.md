# RADIUS gateway to a cloud directory: the authentication decision

This project models the decision logic of a small RADIUS server. The server takes
Access-Request packets and checks the user against two things: an allowlist table
and the cloud directory (the directory's `/users/{name}` lookup). It answers
Access-Accept or Access-Reject.

The model covers the `RadiusServer` class in `src/servers/radius.js`:

- **Username normalisation** (`formatUsername`). A name with an `@` is kept as it
  is (`Username.IsQualified`, the test at src/servers/radius.js:68). A bare name
  gets `@gamutvisual.pe` appended.
- **The decision** (`authenticateUser`). The steps stop at the first one that
  decides:
  1. The allowlist gate.
  2. The in-memory `tokenCache`, keyed by the formatted username. An entry is
     live while its `expiresOn` is strictly after the current time
     (`Authentication.IsLive`, the test at src/servers/radius.js:137-139).
  3. The directory lookup. A disabled account is rejected. An enabled account
     succeeds when its userPrincipalName equals the username ignoring case. That
     success stores an entry expiring 3,600,000 ms later.
  4. The `catch` block. The error code `Request_ResourceNotFound` means "User not
     found". Any other error is a failure carrying its message.
- **The reply** (`onMessageReceived`). Only Access-Request packets are answered. A
  success becomes Access-Accept (code 2, section 4.2 of RFC 2865). Anything else
  becomes Access-Reject (code 3, section 4.3), including an exception that
  escapes `authenticateUser`.

The collaborators become inputs:

- The answer of the allowlist query: a boolean, or a thrown value.
- The answer of the directory lookup: a found account, or a thrown value.
- The two readings of `Date.now()`: one when the cache entry is checked, one when a
  new entry is stored.

Modules:

- `Text` (text.dfy): the case folding used by the name comparison.
- `Username` (username.dfy): `formatUsername`.
- `Authentication` (authentication.dfy): `authenticateUser` as the function
  `Authenticate`. It also holds the properties of one call and of a sequence of
  calls.
- `Dispatch` (dispatch.dfy): the reply chosen for a decoded packet.
- `Radius` (server.dfy): the `RadiusServer` class. Its `tokenCache` field is a
  map that the methods update in place. Each method is proved equal to the
  function that specifies it.

What the code does, as opposed to what a gateway like this usually does:

- The password is never read. The decision is a function of the name, the
  allowlist, the cache, the directory and the clock only
  (`Dispatch.PasswordIsIgnored`).
- The cache key is the formatted username. Entries are never evicted
  (`Authentication.Replay`), and never shortened as long as the clock does not
  step back within a call (`Authentication.ReplayKeepsExpiry`).
- There is one default domain, not a list of candidate domains.
- There is no rate limiting, no password digest and no MFA fallback.
- Entries live one hour (3,600,000 ms, src/servers/radius.js:155).

## Model

| member | source | states |
|---|---|---|
| `Text.LowerChar` | src/servers/radius.js:151 | folds A-Z and the Latin-1 capitals to their lower-case partners (code point + 32); leaves every other character alone; the result is never a folded capital |
| `Text.ToLower` | src/servers/radius.js:151 | the model's fold of a string keeps its length and lowers every position on its own, by `LowerChar` |
| `Text.EqualsIgnoringCase` | src/servers/radius.js:151 | `userPrincipalName.toLowerCase() === username.toLowerCase()` over the model's fold: equal strings always match, and under that fold matching strings have the same length |
| `Text.ToLowerIdempotent` | src/servers/radius.js:151 | folding twice is folding once |
| `Text.EqualsIgnoringCasePointwise` | src/servers/radius.js:151 | the case-insensitive comparison holds iff the lengths are equal and every position agrees after folding |
| `Text.EqualsIgnoringCaseIsEquivalence` | src/servers/radius.js:151 | the case-insensitive comparison is reflexive, symmetric and transitive |
| `Username.BareIffOwnLocalPart` | src/servers/radius.js:68 | `includes("@")` is false exactly when the part of the name before its first `@` is the whole name |
| `Username.FormatUsername` | src/servers/radius.js:66-73 | the result always contains `@`; a name with `@` is returned unchanged; a bare name is the prefix of the result, followed by `@gamutvisual.pe` |
| `Username.LocalPartOfFormatted` | src/servers/radius.js:71-72 | for a bare name, the part of the formatted name before its first `@` is the name itself |
| `Username.FormatUsernameInjectiveOnBare` | src/servers/radius.js:71-72 | two different bare names never format to the same name |
| `Username.FormatUsernameIdempotent` | src/servers/radius.js:66-73 | formatting a formatted name changes nothing |
| `Username.BareAndDefaultQualifiedCoincide` | src/servers/radius.js:34 | `name` and `name@gamutvisual.pe` format to the same name |
| `Authentication.FreshEntry` | src/servers/radius.js:153-156 | the stored entry holds `dummy-token`; stored under any key, it is live at time t exactly when t is before the store time + 3,600,000 |
| `Authentication.Caught` | src/servers/radius.js:161-166 | the catch block never succeeds; it escapes exactly for `null`/`undefined` (reading `.code` throws); otherwise the message starts with the failure prefix |
| `Authentication.Authenticate` | src/servers/radius.js:128-168 | only the caller's cache entry can change, and only to a fresh one-hour entry; the cache is written only by a directory success; a success implies the allowlist said yes and either a live entry or an enabled account whose name matched |
| `Authentication.NotAllowedIsRejected` | src/servers/radius.js:131-134 | off the allowlist: "User not allowed", whatever the cache and the directory hold, and the cache is unchanged |
| `Authentication.LiveEntrySkipsDirectory` | src/servers/radius.js:137-141 | an allowed user with a live entry gets the cached success whatever the directory would answer; the cache is unchanged |
| `Authentication.ExpiredEntryIsIgnored` | src/servers/radius.js:137-142 | an entry with `expiresOn` at or before the lookup time makes no difference to the completion (the reply); the stale entry itself stays in the cache unless a directory success overwrites it |
| `Authentication.DisabledAccountIsRejected` | src/servers/radius.js:147-149 | a disabled account: "Account is disabled", cache unchanged |
| `Authentication.MatchingAccountIsCached` | src/servers/radius.js:151-157 | an enabled, matching account: success; the user's entry expires at store time + 3,600,000; no other key changes and none is added |
| `Authentication.CaseDifferenceIsAccepted` | src/servers/radius.js:151 | an enabled account whose principal name has the same length as the username and folds to the same character at every position is accepted, whatever the case of its letters |
| `Authentication.MismatchIsRejected` | src/servers/radius.js:160 | an enabled account whose name does not match: "Invalid credentials", cache unchanged |
| `Authentication.ErrorsAreClassified` | src/servers/radius.js:161-166 | errors from the allowlist (whatever the directory would answer) or from the directory: `Request_ResourceNotFound` gives "User not found"; other errors give the prefix plus their message; `null`/`undefined` escapes; the cache is unchanged |
| `Authentication.SuccessCharacterized` | src/servers/radius.js:128-168 | success iff allowed and (a live entry, or an enabled account whose name matches ignoring case) |
| `Authentication.AuthenticatePreservesWellFormed` | src/servers/radius.js:153-156 | for a formatted name, every entry still holds `dummy-token` under a key containing `@` |
| `Authentication.Replay` | src/servers/radius.js:40 | serving a sequence of calls never removes a key from the cache |
| `Authentication.AuthenticateKeepsExpiry` | src/servers/radius.js:137-156 | if the clock does not run back within the call, no entry disappears and no expiry moves earlier |
| `Authentication.ReplayKeepsExpiry` | src/servers/radius.js:137-156 | the same over any sequence of calls |
| `Authentication.DirectorySuccessIsRemembered` | src/servers/radius.js:137-157 | after a directory success stored at time t, every later allowed call for that user that looks up before t + one hour gets the cached success, whatever the directory says and whatever calls came between, as long as the clock does not step back within any of those calls |
| `Authentication.ReplayPreservesWellFormed` | src/servers/radius.js:153-156 | serving formatted names over any sequence of calls keeps the cache well formed |
| `Dispatch.ResponseCode` | src/servers/radius.js:103-124 | Access-Accept iff a result was returned with `success`; an escaped exception gives Access-Reject |
| `Dispatch.HandleMessage` | src/servers/radius.js:87-126 | a non-Access-Request gets no reply and leaves the cache alone; so does a missing User-Name (it throws before the `try`); every other Access-Request is answered; only the formatted name's entry can change |
| `Dispatch.AcceptExactlyOnSuccess` | src/servers/radius.js:90-103 | Access-Accept iff the packet is an Access-Request with a User-Name whose formatted form authenticates |
| `Dispatch.PasswordIsIgnored` | src/servers/radius.js:97-102 | packets that differ only in User-Password get the same reply and leave the same cache |
| `Dispatch.EscapedIsRejected` | src/servers/radius.js:117-124 | whenever an exception escapes authentication, through the allowlist or the directory, the Access-Request is answered with Access-Reject and the cache is unchanged |
| `Dispatch.RejectionsAreIndistinguishable` | src/servers/radius.js:103-124 | every failure, whatever its message, gives the same reply (Access-Reject) |
| `Dispatch.BareNameActsAsDefaultDomain` | src/servers/radius.js:95-96 | a bare User-Name and the same name qualified with the default domain get the same reply and leave the same cache |
| `Dispatch.HandleMessagePreservesWellFormed` | src/servers/radius.js:95-102 | handling any packet keeps the cache well formed |
| `Radius.RadiusServer.constructor` | src/servers/radius.js:37-41 | a new server has an empty token cache |
| `Radius.RadiusServer.AuthenticateUser` | src/servers/radius.js:128-168 | the result and the new `tokenCache` are those of `Authenticate` on the old cache; the password is not read; a well-formed cache stays well formed for a formatted name |
| `Radius.RadiusServer.OnMessageReceived` | src/servers/radius.js:87-126 | the reply and the new `tokenCache` are those of `HandleMessage` on the old cache; the cache stays well formed |

## Left out

- Packet decoding and encoding, the Response Authenticator and User-Password hiding (sections 3 and 5.2 of RFC 2865). These are done by the external codec library. A packet arrives decoded, and a reply is only its code. A packet that fails to decode is not modelled.
- The directory HTTP call, the credential and the client set-up (src/servers/radius.js:49-64). They are replaced by the `DirectoryAnswer` input.
- `isUserAllowed` and the SQL behind it (src/utils/allowedUsers.js, src/utils/database.js). They are replaced by the `AllowlistAnswer` input.
- Environment loading, `getRequiredEnvVar`, `validateConfig`, the UDP socket, `start` and `src/index.js`. These are process set-up and network I/O.
- Logging. It does not affect any outcome. A logger that throws inside the `catch` block is not modelled.
- `Date.now()`. It becomes two integer inputs, one per reading.
- Text.LowerChar, Text.ToLower, Text.EqualsIgnoringCase: fold only A-Z and the Latin-1 capitals U+00C0 to U+00DE (except U+00D7), one character at a time. JavaScript's `toLowerCase` folds every Unicode letter; some letters become more than one character (U+0130 becomes `i` plus a combining dot), so a string of length 1 can match one of length 2; and the fold depends on context (a capital sigma becomes final sigma at the end of a word and ordinary sigma elsewhere). The model's comparison is an approximation.
- Authentication.Authenticate: the directory's userPrincipalName is modelled as a string, and `accountEnabled` as a boolean. A missing or null principal name would make `toLowerCase` throw into the `catch` block. A truthy non-boolean `accountEnabled` is not modelled either.
- Time-outs. Neither `isUserAllowed` (src/servers/radius.js:131) nor the directory lookup (src/servers/radius.js:145) has one, so a call that never settles leaves the request unanswered. `AllowlistAnswer` and `DirectoryAnswer` always settle, so the model does not capture a request left hanging.
- Concurrency. JavaScript runs each handler to its next `await`, so two requests for the same user can interleave between the cache check and the cache write. The model serves calls one at a time (`Replay`).
