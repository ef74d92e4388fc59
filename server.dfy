/** The `RadiusServer` class: its one piece of state is the token cache, which
    `authenticateUser` reads and extends in place.  Logging, the Graph client, the
    allowlist query and the socket are not modelled; their answers and the clock
    readings are parameters.
 */
module Radius {
  import Text
  import Username
  import opened Authentication
  import opened Dispatch

  class RadiusServer {
    /** `this.tokenCache`: username to cached token. */
    var tokenCache: Cache

    /** Every entry holds the dummy token under a formatted name. */
    ghost predicate Valid()
      reads this
    {
      WellFormed(tokenCache)
    }

    /** A server starts with an empty cache. */
    constructor ()
      ensures Valid()
      ensures tokenCache == map[]
    {
      tokenCache := map[];
    }

    /** `authenticateUser(username, password)`.  The password is accepted and never
        read. */
    method AuthenticateUser(username: string, password: Option<string>, allow: AllowlistAnswer,
                            dir: DirectoryAnswer, lookupTime: int, storeTime: int)
      returns (c: Completion)
      modifies this
      ensures Outcome(c, tokenCache) == Authenticate(old(tokenCache), username, allow, dir, lookupTime, storeTime)
      ensures old(Valid()) && '@' in username ==> Valid()
    {
      ghost var before := tokenCache;
      if WellFormed(before) && '@' in username {
        AuthenticatePreservesWellFormed(before, username, allow, dir, lookupTime, storeTime);
      }
      match allow {
        case AllowlistThrew(e) =>
          return Caught(e);
        case Answered(isAllowed) =>
          if !isAllowed {
            return Returned(Fail(NotAllowedMessage));
          }
      }

      if username in tokenCache {
        var cachedToken := tokenCache[username];
        if cachedToken.expiresOn > lookupTime {
          return Returned(AuthResult(true, CachedMessage));
        }
      }

      match dir {
        case DirectoryThrew(e) =>
          return Caught(e);
        case Found(upn, accountEnabled) =>
          if !accountEnabled {
            return Returned(Fail(DisabledMessage));
          }
          if Text.ToLower(upn) == Text.ToLower(username) {
            tokenCache := tokenCache[username := CachedToken(DummyToken, storeTime + TokenLifetime)];
            return Returned(AuthResult(true, AuthenticatedMessage));
          }
          return Returned(Fail(InvalidCredentialsMessage));
      }
    }

    /** `onMessageReceived` on a decoded packet; the reply is what would be encoded
        and sent. */
    method OnMessageReceived(packet: Packet, allow: AllowlistAnswer, dir: DirectoryAnswer,
                             lookupTime: int, storeTime: int)
      returns (reply: Reply)
      requires Valid()
      modifies this
      ensures Valid()
      ensures (reply, tokenCache) == HandleMessage(old(tokenCache), packet, allow, dir, lookupTime, storeTime)
    {
      if packet.code != AccessRequest {
        return NoReply;
      }
      match packet.userName {
        case None =>
          return NoReply;
        case Some(rawUsername) =>
          var formattedUsername := Username.FormatUsername(rawUsername);
          var authResult := AuthenticateUser(formattedUsername, packet.userPassword, allow, dir, lookupTime, storeTime);
          reply := Send(ResponseCode(authResult));
          HandleMessagePreservesWellFormed(old(tokenCache), packet, allow, dir, lookupTime, storeTime);
      }
    }
  }
}
