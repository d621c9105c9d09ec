/**
 * The claim-intercepting message handler of the hosted server variant.  A
 * message whose first field is GL_CLAIM_PLAYER_SESSION carries a player
 * session token; the server asks the hosting service to accept it and
 * answers only the sender.  Every other message goes to the default relay.
 * The hosting service's verdict on a token is the parameter `accept`.
 */
module GameLift {
  import opened Bytes
  import opened Messages
  import opened Registry
  import opened Broadsock

  const GL_CLAIM_PLAYER_SESSION: seq<byte> := Text("GL_CLAIM_PLAYER_SESSION")
  const GL_CLAIM_PLAYER_SESSION_SUCCESS: seq<byte> := Text("GL_CLAIM_PLAYER_SESSION_SUCCESS")
  const GL_CLAIM_PLAYER_SESSION_FAILED: seq<byte> := Text("GL_CLAIM_PLAYER_SESSION_FAILED")

  /** The size of the handler's stack buffer, which also holds the terminating NUL. */
  const BUFFER_SIZE: nat := 100

  lemma ClaimTagsText()
    ensures |GL_CLAIM_PLAYER_SESSION| == 23 && 0 !in GL_CLAIM_PLAYER_SESSION
    ensures |GL_CLAIM_PLAYER_SESSION_SUCCESS| == 31 && 0 !in GL_CLAIM_PLAYER_SESSION_SUCCESS
    ensures |GL_CLAIM_PLAYER_SESSION_FAILED| == 30 && 0 !in GL_CLAIM_PLAYER_SESSION_FAILED
  {
  }

  /** A field at `at` that ReadString can copy into the buffer with its NUL. */
  predicate BufferField(b: seq<byte>, at: nat) {
    FieldFits(b, at) && |FieldAt(b, at)| < BUFFER_SIZE
  }

  /** The C string the buffer holds after ReadString copied the field at `at`. */
  function BufferText(b: seq<byte>, at: nat): (t: seq<byte>)
    requires FieldFits(b, at)
    ensures 0 !in t && |t| <= |FieldAt(b, at)| && t == FieldAt(b, at)[..|t|]
  {
    CStr(FieldAt(b, at))
  }

  /** The position after the field at `at`. */
  function After(b: seq<byte>, at: nat): (next: nat)
    requires FieldFits(b, at)
    ensures next == at + 4 + |FieldAt(b, at)| <= |b|
  {
    at + 4 + |FieldAt(b, at)|
  }

  /**
   * strcmp of the buffer against the claim tag: the field at `at` starts
   * with the tag and ends there or has a NUL right after it.
   */
  function IsClaim(b: seq<byte>, at: nat): (claim: bool)
    requires FieldFits(b, at)
    ensures var f, n := FieldAt(b, at), |GL_CLAIM_PLAYER_SESSION|;
      claim <==> n <= |f| && f[..n] == GL_CLAIM_PLAYER_SESSION && (|f| == n || f[n] == 0)
  {
    ClaimTagsText();
    CStrIs(FieldAt(b, at), GL_CLAIM_PLAYER_SESSION);
    BufferText(b, at) == GL_CLAIM_PLAYER_SESSION
  }

  /**
   * What the handler reads fits its buffer: the first field, and for a
   * claim the token field after it.
   */
  predicate ClaimReadable(b: seq<byte>, at: nat) {
    BufferField(b, at) && (IsClaim(b, at) ==> BufferField(b, After(b, at)))
  }

  /** The token a claim carries, as the C string passed to the hosting service. */
  function ClaimToken(b: seq<byte>, at: nat): (token: seq<byte>)
    requires ClaimReadable(b, at) && IsClaim(b, at)
    ensures 0 !in token && |token| < BUFFER_SIZE
  {
    BufferText(b, After(b, at))
  }

  /**
   * A claim a client writes as the fields [GL_CLAIM_PLAYER_SESSION, token]
   * is recognised whatever follows it, and its token is read back.
   */
  lemma ClaimRoundTrip(token: seq<byte>, rest: seq<byte>)
    requires |token| < BUFFER_SIZE && 0 !in token
    ensures var b := Field(GL_CLAIM_PLAYER_SESSION) + Field(token) + rest;
      && ClaimReadable(b, 0) && IsClaim(b, 0) && ClaimToken(b, 0) == token
  {
    ClaimTagsText();
    CStrWithoutNul(GL_CLAIM_PLAYER_SESSION);
    ClaimOfFields(GL_CLAIM_PLAYER_SESSION, token, rest);
    CStrWithoutNul(token);
  }

  /**
   * A first field whose text differs from the claim tag is not a claim,
   * even when the tag is only its prefix, and a NUL inside the field cuts
   * the compared text short.
   */
  lemma TagWithSuffixIsNotClaim(suffix: seq<byte>, rest: seq<byte>)
    requires 0 < |suffix| < BUFFER_SIZE - 23 && 0 !in suffix
    ensures var b := Field(GL_CLAIM_PLAYER_SESSION + suffix) + rest;
      && BufferField(b, 0) && !IsClaim(b, 0)
  {
    ClaimTagsText();
    var tag := GL_CLAIM_PLAYER_SESSION + suffix;
    FieldAfter([], tag, rest);
    assert [] + Field(tag) + rest == Field(tag) + rest;
    CStrWithoutNul(tag);
  }

  /**
   * Any first field whose C string is the claim tag makes a claim, and the
   * token is the C string of the field after it.
   */
  lemma ClaimOfFields(tag: seq<byte>, token: seq<byte>, rest: seq<byte>)
    requires |tag| < BUFFER_SIZE && |token| < BUFFER_SIZE && CStr(tag) == GL_CLAIM_PLAYER_SESSION
    ensures var b := Field(tag) + Field(token) + rest;
      && ClaimReadable(b, 0) && IsClaim(b, 0) && ClaimToken(b, 0) == CStr(token)
  {
    var f := Field(tag);
    var b := f + Field(token) + rest;
    TwoFields([], tag, token, rest);
    assert [] + f == f;
    assert FieldAt(b, 0) == tag;
    var next := After(b, 0);
    assert FieldAt(b, next) == token;
  }

  /** A tag followed by a NUL and anything else reads as the tag alone. */
  lemma TagWithNulIsClaim(junk: seq<byte>, token: seq<byte>, rest: seq<byte>)
    requires 24 + |junk| < BUFFER_SIZE && |token| < BUFFER_SIZE
    ensures var b := Field(GL_CLAIM_PLAYER_SESSION + [0] + junk) + Field(token) + rest;
      && ClaimReadable(b, 0) && IsClaim(b, 0) && ClaimToken(b, 0) == CStr(token)
  {
    ClaimTagsText();
    CStrTerminated(GL_CLAIM_PLAYER_SESSION, junk);
    ClaimOfFields(GL_CLAIM_PLAYER_SESSION + [0] + junk, token, rest);
  }

  /**
   * The hosted server's HandleClientMessage: reads the first field; for a
   * claim reads the token, asks `accept` about it and sends the sender
   * alone [uid, GL_CLAIM_PLAYER_SESSION_SUCCESS] or [uid,
   * GL_CLAIM_PLAYER_SESSION_FAILED]; for anything else rewinds the message
   * and relays it like the default handler.  `token` is what the hosting
   * service was asked about, if anything.
   */
  method HandleClaimMessage(server: Server, c: Client, message: Message, accept: seq<byte> -> bool)
    returns (token: Option<seq<byte>>)
    requires server.Valid() && IsInt32(c.uid) && message.Valid()
    requires ClaimReadable(message.bytes[..], message.index)
    requires !IsClaim(message.bytes[..], message.index) ==> message.length <= RelayCapacity(c.uid)
    modifies server`outbox, message`index
    ensures var b, at := message.bytes[..], old(message.index);
      && (IsClaim(b, at) ==>
            && token == Some(ClaimToken(b, at))
            && server.outbox == old(server.outbox) + Deliver(Recipients(server.clients[..], ToFd(c.connfd)),
                 WireOf(Notice(c.uid, if accept(ClaimToken(b, at))
                   then GL_CLAIM_PLAYER_SESSION_SUCCESS else GL_CLAIM_PLAYER_SESSION_FAILED))))
      && (!IsClaim(b, at) ==>
            && token == None && message.index == 0
            && server.outbox == old(server.outbox) + Deliver(Recipients(server.clients[..], AllBut(c.uid)),
                 WireOf(Field(Decimal(c.uid)) + message.MessageContent(message.length))))
  {
    ClaimTagsText();
    ghost var b, at := message.bytes[..], message.index;
    var tagField := message.ReadString();
    if CStr(tagField) == GL_CLAIM_PLAYER_SESSION {
      var tokenField := message.ReadString();
      var t := CStr(tokenField);
      token := Some(t);
      ReplyToClaim(server, c, accept(t));
    } else {
      token := None;
      message.Rewind();
      server.HandleClientMessage(c, message);
    }
  }

  /** Sends the sender [uid, GL_CLAIM_PLAYER_SESSION_SUCCESS] or [uid, GL_CLAIM_PLAYER_SESSION_FAILED]. */
  method ReplyToClaim(server: Server, c: Client, accepted: bool)
    requires server.Valid() && IsInt32(c.uid)
    modifies server`outbox
    ensures server.outbox == old(server.outbox) + Deliver(Recipients(server.clients[..], ToFd(c.connfd)),
      WireOf(Notice(c.uid, if accepted then GL_CLAIM_PLAYER_SESSION_SUCCESS else GL_CLAIM_PLAYER_SESSION_FAILED)))
  {
    ClaimTagsText();
    var reply: Message;
    if !accepted {
      reply := NoticeMessage(c.uid, GL_CLAIM_PLAYER_SESSION_FAILED);
    } else {
      reply := NoticeMessage(c.uid, GL_CLAIM_PLAYER_SESSION_SUCCESS);
    }
    FrameOfAppending(reply);
    server.SendMessageSelf(reply, c.connfd);
  }

  /** A claim from a registered client is answered once, on that client's own descriptor only. */
  lemma ClaimReplyOnlyToSender(s: Slots, k: nat, w: seq<byte>)
    requires Distinct(s) && Occupied(s, k)
    ensures var c := s[k].value;
      Deliver(Recipients(s, ToFd(c.connfd)), w) == [Delivery(c.connfd, w)]
  {
    TargetedReachesOne(s, k);
  }

  /** The health check the hosting service polls always reports healthy. */
  function OnHealthCheck(): (healthy: bool)
    ensures healthy
  {
    true
  }
}
