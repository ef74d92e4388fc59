/** The reply the RADIUS server chooses for an incoming packet (`onMessageReceived`),
    with decoding and encoding left to the codec library: a packet arrives already
    decoded, and a reply is only its code.  Codes are those of sections 4.1 to 4.3
    of RFC 2865.
 */
module Dispatch {
  import Username
  import opened Authentication

  /** The codec's name for the request code (RFC 2865, section 4.1, code 1). */
  const AccessRequest: string := "Access-Request"

  /** The two reply codes the server sends. */
  datatype ReplyCode = AccessAccept | AccessReject

  /** What goes back on the socket: nothing, or a reply with a code. */
  datatype Reply = NoReply | Send(code: ReplyCode)

  /** A decoded packet: its code as the codec names it, and the `User-Name` and
      `User-Password` attributes when present. */
  datatype Packet = Packet(code: string, userName: Option<string>, userPassword: Option<string>)

  /** The response code for a finished authentication: Access-Accept exactly when a
      result was returned and says success; a failure and an escaped exception both
      become Access-Reject. */
  function ResponseCode(c: Completion): (r: ReplyCode)
    ensures r == AccessAccept <==> c.Succeeded()
    ensures c.Escaped? ==> r == AccessReject
  {
    match c
    case Returned(result) => if result.success then AccessAccept else AccessReject
    case Escaped => AccessReject
  }

  /** `onMessageReceived` on a decoded packet: anything but an Access-Request is
      dropped; a missing `User-Name` makes `formatUsername` throw before the
      `try`, so no reply is sent; otherwise the formatted name is authenticated and
      the outcome becomes the reply.  Returns the reply and the new token cache. */
  function HandleMessage(cache: Cache, packet: Packet, allow: AllowlistAnswer, dir: DirectoryAnswer,
                         lookupTime: int, storeTime: int): (h: (Reply, Cache))
    ensures packet.code != AccessRequest ==> h == (NoReply, cache)
    ensures packet.userName.None? ==> h == (NoReply, cache)
    ensures packet.code == AccessRequest && packet.userName.Some? ==> h.0.Send?
    ensures h.1 == cache || (packet.userName.Some? && h.1 == cache[Username.FormatUsername(packet.userName.value) := FreshEntry(storeTime)])
  {
    if packet.code != AccessRequest then (NoReply, cache)
    else
      match packet.userName
      case None => (NoReply, cache)
      case Some(raw) =>
        var o := Authenticate(cache, Username.FormatUsername(raw), allow, dir, lookupTime, storeTime);
        (Send(ResponseCode(o.completion)), o.cache)
  }

  /** An answered request is accepted exactly when the decision about its formatted
      name succeeds. */
  lemma AcceptExactlyOnSuccess(cache: Cache, packet: Packet, allow: AllowlistAnswer, dir: DirectoryAnswer,
                               lookupTime: int, storeTime: int)
    ensures HandleMessage(cache, packet, allow, dir, lookupTime, storeTime).0 == Send(AccessAccept) <==>
              packet.code == AccessRequest && packet.userName.Some? &&
              Authenticate(cache, Username.FormatUsername(packet.userName.value), allow, dir, lookupTime, storeTime)
                .completion.Succeeded()
  {
  }

  /** The password attribute plays no part: two packets that differ only in it get
      the same reply and leave the same cache. */
  lemma PasswordIsIgnored(cache: Cache, packet: Packet, password: Option<string>, allow: AllowlistAnswer,
                          dir: DirectoryAnswer, lookupTime: int, storeTime: int)
    ensures HandleMessage(cache, packet, allow, dir, lookupTime, storeTime)
            == HandleMessage(cache, packet.(userPassword := password), allow, dir, lookupTime, storeTime)
  {
  }

  /** An exception escaping authentication, through either collaborator, is
      answered with Access-Reject and leaves the cache alone. */
  lemma EscapedIsRejected(cache: Cache, name: string, password: Option<string>, allow: AllowlistAnswer,
                          dir: DirectoryAnswer, lookupTime: int, storeTime: int)
    requires Authenticate(cache, Username.FormatUsername(name), allow, dir, lookupTime, storeTime).completion.Escaped?
    ensures HandleMessage(cache, Packet(AccessRequest, Some(name), password), allow, dir, lookupTime, storeTime)
            == (Send(AccessReject), cache)
  {
  }

  /** Every rejection looks the same on the wire: two failed outcomes, whatever
      their messages, give the same reply. */
  lemma RejectionsAreIndistinguishable(c1: Completion, c2: Completion)
    requires !c1.Succeeded() && !c2.Succeeded()
    ensures ResponseCode(c1) == ResponseCode(c2) == AccessReject
  {
  }

  /** A bare user name and the same name qualified with the default domain are the
      same user: the same reply and the same cache. */
  lemma BareNameActsAsDefaultDomain(cache: Cache, name: string, password: Option<string>, allow: AllowlistAnswer,
                                    dir: DirectoryAnswer, lookupTime: int, storeTime: int)
    requires !Username.IsQualified(name)
    ensures HandleMessage(cache, Packet(AccessRequest, Some(name), password), allow, dir, lookupTime, storeTime)
            == HandleMessage(cache, Packet(AccessRequest, Some(name + Username.DomainSuffix), password),
                             allow, dir, lookupTime, storeTime)
  {
  }

  /** Handling any packet keeps the cache well formed. */
  lemma HandleMessagePreservesWellFormed(cache: Cache, packet: Packet, allow: AllowlistAnswer, dir: DirectoryAnswer,
                                         lookupTime: int, storeTime: int)
    requires WellFormed(cache)
    ensures WellFormed(HandleMessage(cache, packet, allow, dir, lookupTime, storeTime).1)
  {
  }
}
