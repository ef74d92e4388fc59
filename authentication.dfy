/** The authentication decision of the RADIUS server (`authenticateUser`), as a
    function of the token cache and of what the collaborators answered.

    The allowlist query, the directory lookup and the clock are not called here:
    their answers are inputs.  The password is not an input, because the decision
    never reads it.
 */
module Authentication {
  import Text

  datatype Option<T> = None | Some(value: T)

  /** A value thrown by a collaborator.  An object (an `Error`, or any value whose
      `.code` and `.message` can be read) carries an optional `code` and its
      `message` as string concatenation renders it; `null` and `undefined` are the
      values whose `.code` itself throws. */
  datatype Thrown = ErrorValue(code: Option<string>, message: string) | NullOrUndefined

  /** What `isUserAllowed(username)` settled to. */
  datatype AllowlistAnswer = Answered(allowed: bool) | AllowlistThrew(error: Thrown)

  /** What the directory lookup `/users/{username}` settled to. */
  datatype DirectoryAnswer =
    | Found(userPrincipalName: string, accountEnabled: bool)
    | DirectoryThrew(error: Thrown)

  /** The `{ success, message }` object `authenticateUser` returns. */
  datatype AuthResult = AuthResult(success: bool, message: string)

  /** How a call of `authenticateUser` ends: it returns a result, or an exception
      escapes it. */
  datatype Completion = Returned(result: AuthResult) | Escaped {
    predicate Succeeded() { Returned? && result.success }
  }

  /** One entry of `tokenCache`. */
  datatype CachedToken = CachedToken(token: string, expiresOn: int)

  /** `tokenCache`, keyed by the username exactly as given. */
  type Cache = map<string, CachedToken>

  /** The completion of one call together with the cache it leaves behind. */
  datatype Outcome = Outcome(completion: Completion, cache: Cache)

  /** Lifetime of a cache entry, in milliseconds (one hour). */
  const TokenLifetime: int := 3600000

  /** The token stored with every entry. */
  const DummyToken: string := "dummy-token"

  /** Error code the directory uses for an unknown user. */
  const ResourceNotFound: string := "Request_ResourceNotFound"

  const FailurePrefix: string := "\U{274C} authentication failed: "
  const NotAllowedMessage: string := FailurePrefix + "User not allowed"
  const DisabledMessage: string := FailurePrefix + "Account is disabled"
  const InvalidCredentialsMessage: string := FailurePrefix + "Invalid credentials"
  const NotFoundMessage: string := FailurePrefix + "User not found"
  const CachedMessage: string := "\U{2705} authenticated successfully (cached)"
  const AuthenticatedMessage: string := "\U{2705} authenticated successfully"

  function Fail(message: string): AuthResult { AuthResult(false, message) }

  /** A cache entry for `username` that has not expired at time `now`. */
  predicate IsLive(cache: Cache, username: string, now: int) {
    username in cache && cache[username].expiresOn > now
  }

  /** The entry a successful directory check stores at time `now`. */
  function FreshEntry(now: int): (e: CachedToken)
    ensures e.token == DummyToken
    ensures e.expiresOn - now == 3600000
    // stored under any key, the entry is live exactly until one hour after `now`
    ensures forall m: Cache, u: string, t: int :: u in m && m[u] == e ==> (IsLive(m, u, t) <==> t < now + 3600000)
  {
    CachedToken(DummyToken, now + TokenLifetime)
  }

  /** The `catch` block: an unknown user is reported as such, any other error with
      its message; reading `.code` of `null` or `undefined` throws again, and that
      exception escapes. */
  function Caught(e: Thrown): (c: Completion)
    ensures c.Escaped? <==> e.NullOrUndefined?
    ensures !c.Succeeded()
    ensures c.Returned? ==> |c.result.message| >= |FailurePrefix| && c.result.message[..|FailurePrefix|] == FailurePrefix
  {
    match e
    case NullOrUndefined => Escaped
    case ErrorValue(code, message) =>
      if code == Some(ResourceNotFound) then Returned(Fail(NotFoundMessage))
      else Returned(Fail(FailurePrefix + message))
  }

  /** `authenticateUser(username, password)`: the allowlist gate, then the cache,
      then the directory, stopping at the first stage that decides.  `lookupTime` is
      the clock read when the cache entry is checked, `storeTime` the clock read when
      a new entry is stored. */
  function Authenticate(cache: Cache, username: string, allow: AllowlistAnswer, dir: DirectoryAnswer,
                        lookupTime: int, storeTime: int): (o: Outcome)
    // the only entry that can change is the caller's, and only to a fresh one
    ensures o.cache == cache || o.cache == cache[username := FreshEntry(storeTime)]
    // the cache is written only by a success that went to the directory
    ensures o.cache != cache ==> o.completion == Returned(AuthResult(true, AuthenticatedMessage))
    // nobody off the allowlist gets through
    ensures o.completion.Succeeded() ==> allow == Answered(true)
    // a success came from a live entry or from an enabled account whose name matched
    ensures o.completion.Succeeded() ==>
              IsLive(cache, username, lookupTime) ||
              (dir.Found? && dir.accountEnabled && Text.EqualsIgnoringCase(dir.userPrincipalName, username))
  {
    match allow
    case AllowlistThrew(e) => Outcome(Caught(e), cache)
    case Answered(allowed) =>
      if !allowed then Outcome(Returned(Fail(NotAllowedMessage)), cache)
      else if IsLive(cache, username, lookupTime) then Outcome(Returned(AuthResult(true, CachedMessage)), cache)
      else
        match dir
        case DirectoryThrew(e) => Outcome(Caught(e), cache)
        case Found(upn, enabled) =>
          if !enabled then Outcome(Returned(Fail(DisabledMessage)), cache)
          else if Text.EqualsIgnoringCase(upn, username) then
            Outcome(Returned(AuthResult(true, AuthenticatedMessage)), cache[username := FreshEntry(storeTime)])
          else Outcome(Returned(Fail(InvalidCredentialsMessage)), cache)
  }

  /** Every entry holds the dummy token and is keyed by a formatted (qualified) name. */
  ghost predicate WellFormed(cache: Cache) {
    forall k :: k in cache ==> '@' in k && cache[k].token == DummyToken
  }

  // ---------------------------------------------------------------------------
  // One call, stage by stage
  // ---------------------------------------------------------------------------

  /** Off the allowlist: rejected whatever the cache holds and whatever the
      directory would say, and the cache is left alone. */
  lemma NotAllowedIsRejected(cache: Cache, username: string, dir: DirectoryAnswer, lookupTime: int, storeTime: int)
    ensures Authenticate(cache, username, Answered(false), dir, lookupTime, storeTime)
            == Outcome(Returned(Fail(NotAllowedMessage)), cache)
  {
  }

  /** A live entry answers for the user: success without consulting the directory
      (the outcome is the same for any directory answer), cache unchanged. */
  lemma LiveEntrySkipsDirectory(cache: Cache, username: string, dir1: DirectoryAnswer, dir2: DirectoryAnswer,
                                lookupTime: int, storeTime: int)
    requires IsLive(cache, username, lookupTime)
    ensures Authenticate(cache, username, Answered(true), dir1, lookupTime, storeTime)
            == Authenticate(cache, username, Answered(true), dir2, lookupTime, storeTime)
            == Outcome(Returned(AuthResult(true, CachedMessage)), cache)
  {
  }

  /** An entry whose expiry is not after the lookup time is ignored: the call ends
      as if there were no entry at all (the stale entry stays stored unless a
      success overwrites it). */
  lemma ExpiredEntryIsIgnored(cache: Cache, username: string, allow: AllowlistAnswer, dir: DirectoryAnswer,
                              lookupTime: int, storeTime: int)
    requires username in cache && cache[username].expiresOn <= lookupTime
    ensures Authenticate(cache, username, allow, dir, lookupTime, storeTime).completion
            == Authenticate(cache - {username}, username, allow, dir, lookupTime, storeTime).completion
  {
  }

  /** A disabled account is rejected and nothing is cached. */
  lemma DisabledAccountIsRejected(cache: Cache, username: string, upn: string, lookupTime: int, storeTime: int)
    requires !IsLive(cache, username, lookupTime)
    ensures Authenticate(cache, username, Answered(true), Found(upn, false), lookupTime, storeTime)
            == Outcome(Returned(Fail(DisabledMessage)), cache)
  {
  }

  /** An enabled account whose principal name matches ignoring case: success, and
      the user's entry now expires one hour after the store time; every other key
      keeps its entry. */
  lemma MatchingAccountIsCached(cache: Cache, username: string, upn: string, lookupTime: int, storeTime: int)
    requires !IsLive(cache, username, lookupTime)
    requires Text.EqualsIgnoringCase(upn, username)
    ensures var o := Authenticate(cache, username, Answered(true), Found(upn, true), lookupTime, storeTime);
            && o.completion == Returned(AuthResult(true, AuthenticatedMessage))
            && username in o.cache && o.cache[username].expiresOn == storeTime + 3600000
            && o.cache.Keys == cache.Keys + {username}
            && forall k :: k in cache && k != username ==> o.cache[k] == cache[k]
  {
  }

  /** The principal-name match is by case-folded equality: a principal name that
      differs from the username only in the case of its letters is accepted. */
  lemma CaseDifferenceIsAccepted(cache: Cache, username: string, upn: string, lookupTime: int, storeTime: int)
    requires !IsLive(cache, username, lookupTime)
    requires |upn| == |username|
    requires forall i :: 0 <= i < |upn| ==> Text.LowerChar(upn[i]) == Text.LowerChar(username[i])
    ensures Authenticate(cache, username, Answered(true), Found(upn, true), lookupTime, storeTime)
              .completion.Succeeded()
  {
    Text.EqualsIgnoringCasePointwise(upn, username);
  }

  /** An enabled account whose principal name does not match is rejected and nothing
      is cached. */
  lemma MismatchIsRejected(cache: Cache, username: string, upn: string, lookupTime: int, storeTime: int)
    requires !IsLive(cache, username, lookupTime)
    requires !Text.EqualsIgnoringCase(upn, username)
    ensures Authenticate(cache, username, Answered(true), Found(upn, true), lookupTime, storeTime)
            == Outcome(Returned(Fail(InvalidCredentialsMessage)), cache)
  {
  }

  /** Errors thrown by the allowlist query or the directory: an unknown user is
      "User not found", any other error object is a failure carrying its message,
      `null`/`undefined` escapes; in every case the cache is left alone. */
  lemma ErrorsAreClassified(cache: Cache, username: string, e: Thrown, dir: DirectoryAnswer,
                            lookupTime: int, storeTime: int)
    ensures var viaAllowlist := Authenticate(cache, username, AllowlistThrew(e), dir, lookupTime, storeTime);
            && viaAllowlist.cache == cache
            && (e.ErrorValue? && e.code == Some(ResourceNotFound) ==> viaAllowlist.completion == Returned(Fail(NotFoundMessage)))
            && (e.ErrorValue? && e.code != Some(ResourceNotFound) ==>
                  viaAllowlist.completion == Returned(Fail(FailurePrefix + e.message)))
            && (e.NullOrUndefined? ==> viaAllowlist.completion == Escaped)
    ensures !IsLive(cache, username, lookupTime) ==>
              Authenticate(cache, username, Answered(true), DirectoryThrew(e), lookupTime, storeTime)
              == Outcome(Caught(e), cache)
  {
  }

  /** The decision in one sentence: success exactly when the user is allowed and
      either holds a live entry or the directory returns an enabled account whose
      principal name matches ignoring case. */
  lemma SuccessCharacterized(cache: Cache, username: string, allow: AllowlistAnswer, dir: DirectoryAnswer,
                             lookupTime: int, storeTime: int)
    ensures Authenticate(cache, username, allow, dir, lookupTime, storeTime).completion.Succeeded() <==>
              allow == Answered(true) &&
              (IsLive(cache, username, lookupTime) ||
               (dir.Found? && dir.accountEnabled && Text.EqualsIgnoringCase(dir.userPrincipalName, username)))
  {
  }

  /** Authenticating a formatted name keeps the cache well formed. */
  lemma AuthenticatePreservesWellFormed(cache: Cache, username: string, allow: AllowlistAnswer, dir: DirectoryAnswer,
                                        lookupTime: int, storeTime: int)
    requires WellFormed(cache) && '@' in username
    ensures WellFormed(Authenticate(cache, username, allow, dir, lookupTime, storeTime).cache)
  {
  }

  // ---------------------------------------------------------------------------
  // Many calls: entries are never removed
  // ---------------------------------------------------------------------------

  /** The inputs of one call of `authenticateUser`. */
  datatype Request = Request(username: string, allow: AllowlistAnswer, dir: DirectoryAnswer,
                             lookupTime: int, storeTime: int)

  /** Within one call the clock does not run backwards between its two readings. */
  predicate ClockForward(r: Request) { r.lookupTime <= r.storeTime }

  /** The cache after serving `requests` one after another. */
  function Replay(cache: Cache, requests: seq<Request>): (r: Cache)
    ensures cache.Keys <= r.Keys
    decreases |requests|
  {
    if requests == [] then cache
    else
      var q := requests[0];
      Replay(Authenticate(cache, q.username, q.allow, q.dir, q.lookupTime, q.storeTime).cache, requests[1..])
  }

  /** One call never shortens the life of an entry: an overwrite happens only when
      the old entry had expired by the lookup time. */
  lemma AuthenticateKeepsExpiry(cache: Cache, q: Request, k: string)
    requires ClockForward(q) && k in cache
    ensures var after := Authenticate(cache, q.username, q.allow, q.dir, q.lookupTime, q.storeTime).cache;
            k in after && after[k].expiresOn >= cache[k].expiresOn
  {
  }

  /** Entries are never evicted or shortened, whatever the calls in between. */
  lemma {:induction false} ReplayKeepsExpiry(cache: Cache, requests: seq<Request>, k: string)
    requires forall i :: 0 <= i < |requests| ==> ClockForward(requests[i])
    requires k in cache
    ensures k in Replay(cache, requests) && Replay(cache, requests)[k].expiresOn >= cache[k].expiresOn
    decreases |requests|
  {
    if requests != [] {
      var q := requests[0];
      var next := Authenticate(cache, q.username, q.allow, q.dir, q.lookupTime, q.storeTime).cache;
      AuthenticateKeepsExpiry(cache, q, k);
      ReplayKeepsExpiry(next, requests[1..], k);
    }
  }

  /** Once the directory has accepted a user at `storeTime`, every later call for
      that user that passes the allowlist and looks up before `storeTime` plus one
      hour succeeds from the cache, without the directory, however many calls for
      anyone came in between, as long as none of them saw the clock step back. */
  lemma {:induction false} DirectorySuccessIsRemembered(cache: Cache, first: Request, between: seq<Request>,
                                                       dir: DirectoryAnswer, lookupTime: int, storeTime: int)
    requires forall i :: 0 <= i < |between| ==> ClockForward(between[i])
    requires Authenticate(cache, first.username, first.allow, first.dir, first.lookupTime, first.storeTime).completion
             == Returned(AuthResult(true, AuthenticatedMessage))
    requires lookupTime < first.storeTime + TokenLifetime
    ensures Authenticate(Replay(cache, [first] + between), first.username, Answered(true), dir, lookupTime, storeTime).completion
            == Returned(AuthResult(true, CachedMessage))
  {
    var u := first.username;
    var afterFirst := Authenticate(cache, u, first.allow, first.dir, first.lookupTime, first.storeTime).cache;
    assert u in afterFirst && afterFirst[u].expiresOn == first.storeTime + TokenLifetime;
    assert ([first] + between)[0] == first && ([first] + between)[1..] == between;
    ReplayKeepsExpiry(afterFirst, between, u);
  }

  /** Serving formatted names keeps the cache well formed, across any number of calls. */
  lemma {:induction false} ReplayPreservesWellFormed(cache: Cache, requests: seq<Request>)
    requires WellFormed(cache)
    requires forall i :: 0 <= i < |requests| ==> '@' in requests[i].username
    ensures WellFormed(Replay(cache, requests))
    decreases |requests|
  {
    if requests != [] {
      var q := requests[0];
      AuthenticatePreservesWellFormed(cache, q.username, q.allow, q.dir, q.lookupTime, q.storeTime);
      ReplayPreservesWellFormed(Authenticate(cache, q.username, q.allow, q.dir, q.lookupTime, q.storeTime).cache,
                                requests[1..]);
    }
  }
}
