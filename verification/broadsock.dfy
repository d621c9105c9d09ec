/**
 * The binary-framed relay server: a registry of at most MAX_CLIENTS - 1
 * connected clients, four delivery policies, a 4-byte big-endian frame
 * header, and the per-client read of one frame per readiness event.
 * Socket writes are appended to `outbox` as (descriptor, bytes) pairs;
 * socket reads consume a byte sequence that stands for what the peer sent.
 */
module Broadsock {
  import opened Bytes
  import opened Messages
  import opened Registry

  /** One frame written to a socket. */
  type Packet = Delivery<seq<byte>>

  const CONNECT_OTHER: seq<byte> := Text("CONNECT_OTHER")
  const CONNECT_SELF: seq<byte> := Text("CONNECT_SELF")
  const DISCONNECT: seq<byte> := Text("DISCONNECT")

  /** The fields [uid, tag] of the CONNECT_SELF and DISCONNECT notices. */
  function Notice(uid: int, tag: seq<byte>): (w: seq<byte>)
    requires IsInt32(uid) && |tag| <= INT32_MAX
    ensures |w| <= 19 + |tag|
  {
    DecimalInt32Length(uid);
    Field(Decimal(uid)) + Field(tag)
  }

  /** The fields [uid, "CONNECT_OTHER", ip, port] announcing a new client. */
  function ConnectOtherNotice(uid: int, addr: Addr): (w: seq<byte>)
    requires IsInt32(uid) && ValidAddr(addr)
    ensures |w| <= 19 + |CONNECT_OTHER| + 4 + |addr.ip| + 4 + 10
  {
    DecimalInt32Length(addr.port);
    Notice(uid, CONNECT_OTHER) + Field(CStr(addr.ip)) + Field(Decimal(addr.port))
  }

  /** The three tags are plain text without a NUL. */
  lemma TagsText()
    ensures |CONNECT_OTHER| == 13 && 0 !in CONNECT_OTHER
    ensures |CONNECT_SELF| == 12 && 0 !in CONNECT_SELF
    ensures |DISCONNECT| == 10 && 0 !in DISCONNECT
  {
  }

  /**
   * The [uid, tag] message the server builds reads back field by field as
   * the uid's decimal text and the tag.  What a client receives is not this
   * message but its frame, which drops the first four bytes (NoticeOnWire).
   */
  lemma NoticeFields(uid: int, tag: seq<byte>)
    requires IsInt32(uid) && |tag| <= INT32_MAX
    ensures var w := Notice(uid, tag);
      && FieldFits(w, 0) && FieldAt(w, 0) == Decimal(uid)
      && FieldFits(w, 4 + |Decimal(uid)|) && FieldAt(w, 4 + |Decimal(uid)|) == tag
      && |w| == 4 + |Decimal(uid)| + 4 + |tag|
  {
    DecimalInt32Length(uid);
    assert Notice(uid, tag) == [] + Field(Decimal(uid)) + Field(tag) + [];
    TwoFields([], Decimal(uid), tag, []);
  }

  /**
   * The CONNECT_OTHER message the server builds reads back, after the
   * [uid, "CONNECT_OTHER"] fields of NoticeFields, as the address text up to
   * its first NUL and the port's decimal text.
   */
  lemma ConnectOtherFields(uid: int, addr: Addr)
    requires IsInt32(uid) && ValidAddr(addr)
    ensures var w, n := ConnectOtherNotice(uid, addr), Notice(uid, CONNECT_OTHER);
      |n| <= |w| && w[..|n|] == n
    ensures var w, n := ConnectOtherNotice(uid, addr), Notice(uid, CONNECT_OTHER);
      FieldFits(w, |n|) && FieldAt(w, |n|) == CStr(addr.ip)
    ensures var w, at := ConnectOtherNotice(uid, addr), |Notice(uid, CONNECT_OTHER)| + 4 + |CStr(addr.ip)|;
      FieldFits(w, at) && FieldAt(w, at) == Decimal(addr.port) && |w| == at + 4 + |Decimal(addr.port)|
  {
    DecimalInt32Length(uid);
    DecimalInt32Length(addr.port);
    var n, ip, port := Notice(uid, CONNECT_OTHER), CStr(addr.ip), Decimal(addr.port);
    TwoFields(n, ip, port, []);
    assert ConnectOtherNotice(uid, addr) == n + Field(ip) + Field(port) + [];
  }

  /**
   * The relayed message for payload `p` from `uid`: the uid field, then the
   * |p| bytes MessageContent yields for the received message, which start
   * four bytes into the payload and run into the zero fill after it.
   */
  function Relay(uid: int, p: seq<byte>): (w: seq<byte>)
    requires IsInt32(uid)
    ensures |w| <= 15 + |p|
  {
    DecimalInt32Length(uid);
    Field(Decimal(uid)) + (p + Zeros(4))[4..|p| + 4]
  }

  /** A relayed payload of four bytes or more loses its first four bytes and gains four zeros. */
  lemma RelayShape(uid: int, p: seq<byte>)
    requires IsInt32(uid) && |p| >= 4
    ensures |Decimal(uid)| <= 11
    ensures Relay(uid, p) == Field(Decimal(uid)) + p[4..] + Zeros(4)
  {
    DecimalInt32Length(uid);
    assert (p + Zeros(4))[4..|p| + 4] == p[4..] + Zeros(4);
  }

  /**
   * A payload shorter than four bytes is relayed as zero fill: when client
   * 10 sends "hi", the out message the server builds is the field "10"
   * followed by two zero bytes, and the frame the other clients receive
   * announces 8 bytes and carries '1' '0' and six zero bytes.
   */
  lemma RelayShortPayload()
    ensures Relay(10, [104, 105]) == [0, 0, 0, 2, 49, 48, 0, 0]
    ensures WireOf(Relay(10, [104, 105])) == [0, 0, 0, 8, 49, 48, 0, 0, 0, 0, 0, 0]
  {
    assert Decimal(10) == [49, 48] by {
      assert Digits(10) == Digits(1) + [48];
    }
    assert EncodeBE32(2) == [0, 0, 0, 2];
    var w := Relay(10, [104, 105]);
    assert w == [0, 0, 0, 2, 49, 48, 0, 0];
    assert (w + Zeros(4))[4..|w| + 4] == [49, 48, 0, 0, 0, 0, 0, 0];
    assert EncodeBE32(8) == [0, 0, 0, 8];
  }

  /**
   * What a client receives for a [uid, tag] notice: a header announcing the
   * message's length, then the uid's decimal text without its length
   * prefix, the tag field, and four zero bytes from past the written data.
   */
  lemma NoticeOnWire(uid: int, tag: seq<byte>)
    requires IsInt32(uid) && |tag| <= 100
    ensures WireOf(Notice(uid, tag))
      == EncodeBE32(|Notice(uid, tag)|) + Decimal(uid) + Field(tag) + Zeros(4)
  {
    DecimalInt32Length(uid);
    var w := Notice(uid, tag);
    WireOfShape(w);
    assert w[4..] == Decimal(uid) + Field(tag);
    assert WireOf(w) == WireOf(w)[..4] + WireOf(w)[4..];
  }

  /**
   * So a client cannot read a notice as length-prefixed fields: the notice
   * of client 10 arrives as '1' '0' 00 00 ..., and the first length a reader
   * takes from it, 0x31300000, runs far past the frame.
   */
  lemma NoticeOnWireUnreadable(tag: seq<byte>)
    requires |tag| <= 100
    ensures var payload := WireOf(Notice(10, tag))[4..];
      && payload[..4] == [49, 48, 0, 0]
      && DecodeBE32(payload[..4]) == 0x3130_0000
      && !FieldFits(payload, 0)
  {
    var payload := WireOf(Notice(10, tag))[4..];
    NoticeOnWirePrefix(tag);
    assert DecodeBE32(payload[..4]) == 0x3130_0000 by {
      assert UnsignedBE32([49, 48, 0, 0]) == 0x3130_0000;
    }
  }

  /** The payload of the notice of client 10 starts '1' '0' 00 00 and is short. */
  lemma NoticeOnWirePrefix(tag: seq<byte>)
    requires |tag| <= 100
    ensures var payload := WireOf(Notice(10, tag))[4..];
      payload[..4] == [49, 48, 0, 0] && |payload| <= 110
  {
    DecimalTen();
    NoticeOnWire(10, tag);
    FieldOfShortText(tag);
    var f := Field(tag);
    var payload := WireOf(Notice(10, tag))[4..];
    assert payload == [49, 48] + f + Zeros(4);
    assert payload[..4] == [49, 48] + f[..2];
  }

  lemma DecimalTen()
    ensures Decimal(10) == [49, 48]
  {
    assert Digits(10) == Digits(1) + [48];
  }

  /** The length prefix of a field shorter than 65536 bytes starts with two zero bytes. */
  lemma FieldOfShortText(s: seq<byte>)
    requires |s| < 0x1_0000
    ensures Field(s)[..2] == [0, 0]
  {
    assert Field(s)[..2] == EncodeBE32(|s|)[..2];
  }

  /** The longest payload whose relay fits the out message and its frame. */
  function RelayCapacity(uid: int): int {
    MESSAGE_SIZE - 8 - |Decimal(uid)|
  }

  /** What one read of a frame produced. */
  datatype FrameRead =
    | Closed             // the peer closed the connection before the frame was complete
    | Discarded          // an oversized frame was read and dropped
    | Payload(bytes: seq<byte>)

  /**
   * The stream a ready client offers: empty (the peer closed it) or with a
   * whole header (a header read is all or nothing), and a declared length
   * that either is over MESSAGE_SIZE or leaves room to relay the payload.
   */
  predicate FrameReadable(stream: seq<byte>, uid: int) {
    |stream| == 0 ||
    (|stream| >= 4 &&
      var length := DecodeBE32(stream[..4]);
      length > MESSAGE_SIZE || length <= RelayCapacity(uid))
  }

  /**
   * Reading one frame from `stream`: what was read and what is left.  A
   * declared length over MESSAGE_SIZE is consumed and dropped, a negative
   * one reads no payload, and running out of bytes closes the connection.
   */
  function ReadFrame(stream: seq<byte>): (r: (FrameRead, seq<byte>))
    requires |stream| == 0 || |stream| >= 4
    ensures r.0.Closed? ==> r.1 == []
    ensures r.0.Discarded? ==>
      && |stream| >= 4 && DecodeBE32(stream[..4]) > MESSAGE_SIZE
      && |r.1| == |stream| - 4 - DecodeBE32(stream[..4]) && r.1 == stream[|stream| - |r.1|..]
    ensures r.0.Payload? ==>
      && |stream| >= 4 && DecodeBE32(stream[..4]) <= MESSAGE_SIZE
      && |r.0.bytes| == (if DecodeBE32(stream[..4]) < 0 then 0 else DecodeBE32(stream[..4]))
      && stream == stream[..4] + r.0.bytes + r.1
  {
    if |stream| == 0 then (Closed, [])
    else
      var length := DecodeBE32(stream[..4]);
      var body := stream[4..];
      if length > MESSAGE_SIZE then
        if |body| < length then (Closed, []) else (Discarded, body[length..])
      else
        var n := if length < 0 then 0 else length;
        if |body| < n then (Closed, []) else (Payload(body[..n]), body[n..])
  }

  /** A frame whose header counts its payload is read back as that payload, and the rest stays. */
  lemma ReadFrameRoundTrip(p: seq<byte>, rest: seq<byte>)
    requires |p| <= MESSAGE_SIZE
    ensures ReadFrame(EncodeBE32(|p|) + p + rest) == (Payload(p), rest)
  {
    var s := EncodeBE32(|p|) + p + rest;
    assert s[..4] == EncodeBE32(|p|);
    DecodeEncodeBE32(|p|);
    assert s[4..] == p + rest;
  }

  /**
   * An oversized frame consumes exactly its header and declared length, so
   * the next frame is read from where it starts.
   */
  lemma ReadFrameDiscardAligned(length: int, junk: seq<byte>, rest: seq<byte>)
    requires MESSAGE_SIZE < length <= INT32_MAX && |junk| == length
    ensures ReadFrame(EncodeBE32(length) + junk + rest) == (Discarded, rest)
  {
    var s := EncodeBE32(length) + junk + rest;
    assert s[..4] == EncodeBE32(length);
    DecodeEncodeBE32(length);
    assert s[4..] == junk + rest;
  }

  /** Every frame Send writes for a message reads back as what follows its header. */
  lemma ReadFrameOfWire(w: seq<byte>, rest: seq<byte>)
    requires |w| <= MESSAGE_SIZE
    ensures ReadFrame(WireOf(w) + rest) == (Payload(WireOf(w)[4..]), rest)
  {
    var frame := WireOf(w);
    assert frame == EncodeBE32(|w|) + frame[4..];
    ReadFrameRoundTrip(frame[4..], rest);
  }

  class Server {
    var clients: array<Option<Client>>
    var clientCount: nat
    var uid: int
    var outbox: seq<Packet>

    /** The registry invariant: clientCount counts the occupied slots. */
    ghost predicate Valid()
      reads this`clients, this`clientCount, clients
    {
      clients.Length == MAX_CLIENTS && clientCount == Count(clients[..])
    }

    /**
     * The invariant the accept loop keeps: at most MAX_CLIENTS - 1 clients,
     * distinct uids and descriptors, and every uid below the next one.
     */
    ghost predicate Serving()
      reads this`clients, this`clientCount, this`uid, clients
    {
      Valid() && clientCount < MAX_CLIENTS &&
      Distinct(clients[..]) && UidsBelow(clients[..], uid) && FIRST_UID <= uid <= INT32_MAX
    }

    ghost predicate Registered(c: Client)
      reads this`clients, clients
    {
      exists k :: 0 <= k < clients.Length && clients[k] == Some(c)
    }

    constructor ()
      ensures Serving() && fresh(clients)
      ensures clientCount == 0 && uid == FIRST_UID && outbox == []
      ensures forall i :: 0 <= i < MAX_CLIENTS ==> clients[i].None?
    {
      var slots := new Option<Client>[MAX_CLIENTS];
      for i := 0 to MAX_CLIENTS
        invariant forall j :: 0 <= j < i ==> slots[j].None?
      {
        slots[i] := None;
      }
      clients := slots;
      clientCount := 0;
      uid := FIRST_UID;
      outbox := [];
      new;
      CountZero(clients[..]);
    }

    /** Puts `c` into the first empty slot; a full registry is left as it is. */
    method QueueAdd(c: Client)
      requires Valid()
      modifies clients, this`clientCount
      ensures Valid()
      ensures clients[..] == Added(old(clients[..]), c)
      ensures clientCount == old(clientCount) + (if old(clientCount) < MAX_CLIENTS then 1 else 0)
    {
      AddedSlots(clients[..], c);
      for i := 0 to MAX_CLIENTS
        invariant clients[..] == old(clients[..]) && clientCount == old(clientCount)
        invariant forall j :: 0 <= j < i ==> clients[j].Some?
      {
        if clients[i].None? {
          clients[i] := Some(c);
          clientCount := clientCount + 1;
          return;
        }
      }
    }

    /** Empties the first slot holding uid `u`; an absent uid changes nothing. */
    method QueueDelete(u: int)
      requires Valid()
      modifies clients, this`clientCount
      ensures Valid()
      ensures clients[..] == Deleted(old(clients[..]), u)
      ensures clientCount == old(clientCount) - (if HasUid(old(clients[..]), u) then 1 else 0)
    {
      DeletedSlots(clients[..], u);
      for i := 0 to MAX_CLIENTS
        invariant clients[..] == old(clients[..]) && clientCount == old(clientCount)
        invariant forall j :: 0 <= j < i ==> !(clients[j].Some? && Matches(ToUid(u), clients[j].value))
      {
        if clients[i].Some? && clients[i].value.uid == u {
          clients[i] := None;
          clientCount := clientCount - 1;
          return;
        }
      }
    }

    method IsEmpty() returns (empty: bool)
      requires Valid()
      ensures empty <==> clientCount == 0
      ensures empty <==> forall i :: 0 <= i < MAX_CLIENTS ==> clients[i].None?
    {
      CountZero(clients[..]);
      empty := clientCount == 0;
    }

    /** Writes the frame of `m` to descriptor `fd`: the 4-byte big-endian length, then the content. */
    method Send(fd: int, m: Message)
      requires m.Valid() && 4 + m.length <= MESSAGE_SIZE
      modifies this`outbox
      ensures outbox == old(outbox) + [Delivery(fd, Frame(m))]
      ensures DecodeBE32(Frame(m)[..4]) == m.MessageLength() && Frame(m)[4..] == m.MessageContent(m.length)
    {
      var length := m.MessageLength();
      var bytes := m.MessageContent(length);
      var header := EncodeBE32(length);
      outbox := outbox + [Delivery(fd, header + bytes)];
      DecodeEncodeBE32(length);
      assert Frame(m)[..4] == header;
    }

    /** Sends `m` to every client whose uid is not `u`. */
    method SendMessage(m: Message, u: int)
      requires Valid() && m.Valid() && 4 + m.length <= MESSAGE_SIZE
      modifies this`outbox
      ensures outbox == old(outbox) + Deliver(Recipients(clients[..], AllBut(u)), Frame(m))
    {
      for i := 0 to MAX_CLIENTS
        invariant outbox == old(outbox) + Deliver(Fanout(clients[..i], AllBut(u)), Frame(m))
      {
        var client := clients[i];
        assert clients[..i + 1][..i] == clients[..i];
        if client.Some? && client.value.uid != u {
          Send(client.value.connfd, m);
        }
      }
      assert clients[..MAX_CLIENTS] == clients[..];
    }

    /** Sends `m` to every client. */
    method SendMessageAll(m: Message)
      requires Valid() && m.Valid() && 4 + m.length <= MESSAGE_SIZE
      modifies this`outbox
      ensures outbox == old(outbox) + Deliver(Recipients(clients[..], All), Frame(m))
    {
      for i := 0 to MAX_CLIENTS
        invariant outbox == old(outbox) + Deliver(Fanout(clients[..i], All), Frame(m))
      {
        var client := clients[i];
        assert clients[..i + 1][..i] == clients[..i];
        if client.Some? {
          Send(client.value.connfd, m);
        }
      }
      assert clients[..MAX_CLIENTS] == clients[..];
    }

    /** Sends `m` to the first client on descriptor `connfd`, if any. */
    method SendMessageSelf(m: Message, connfd: int)
      requires Valid() && m.Valid() && 4 + m.length <= MESSAGE_SIZE
      modifies this`outbox
      ensures outbox == old(outbox) + Deliver(Recipients(clients[..], ToFd(connfd)), Frame(m))
    {
      for i := 0 to MAX_CLIENTS
        invariant outbox == old(outbox)
        invariant forall j :: 0 <= j < i ==> !(clients[j].Some? && Matches(ToFd(connfd), clients[j].value))
      {
        var client := clients[i];
        if client.Some? && client.value.connfd == connfd {
          Send(client.value.connfd, m);
          return;
        }
      }
    }

    /** Sends `m` to the first client with uid `u`, if any. */
    method SendMessageClient(m: Message, u: int)
      requires Valid() && m.Valid() && 4 + m.length <= MESSAGE_SIZE
      modifies this`outbox
      ensures outbox == old(outbox) + Deliver(Recipients(clients[..], ToUid(u)), Frame(m))
    {
      for i := 0 to MAX_CLIENTS
        invariant outbox == old(outbox)
        invariant forall j :: 0 <= j < i ==> !(clients[j].Some? && Matches(ToUid(u), clients[j].value))
      {
        var client := clients[i];
        if client.Some? && client.value.uid == u {
          Send(client.value.connfd, m);
          return;
        }
      }
    }

    /**
     * Evicts a registered client: every other client gets [uid, "DISCONNECT"],
     * then the client's slot is emptied.
     */
    method HandleClientDisconnected(c: Client)
      requires Serving() && Registered(c)
      modifies this`outbox, this`clientCount, clients
      ensures Serving() && uid == old(uid)
      ensures clients[..] == Deleted(old(clients[..]), c.uid) && !HasUid(clients[..], c.uid)
      ensures clientCount == old(clientCount) - 1
      ensures outbox == old(outbox) + Deliver(Fanout(clients[..], All), WireOf(Notice(c.uid, DISCONNECT)))
    {
      ghost var k :| 0 <= k < clients.Length && clients[k] == Some(c);
      assert Occupied(clients[..], k);
      assert HasUid(clients[..], c.uid);
      ghost var before := clients[..];
      ghost var wire := WireOf(Notice(c.uid, DISCONNECT));
      TagsText();
      var disconnectMessage := NoticeMessage(c.uid, DISCONNECT);
      FrameOfAppending(disconnectMessage);
      SendMessage(disconnectMessage, c.uid);
      assert clients[..] == before;
      DisconnectRecipients(before, c.uid);
      ghost var sent := outbox;
      assert sent == old(outbox) + Deliver(Fanout(Deleted(before, c.uid), All), wire);
      DeleteIdempotent(before, c.uid);
      DeletedDistinct(before, c.uid, uid);
      QueueDelete(c.uid);
      assert clients[..] == Deleted(before, c.uid) && outbox == sent;
    }

    /**
     * Registers a newly accepted connection under the next uid, tells every
     * client already registered [uid, "CONNECT_OTHER", ip, port], and tells
     * the new client [uid, "CONNECT_SELF"].
     */
    method HandleClientConnected(addr: Addr, connfd: int) returns (ok: bool)
      requires Serving() && clientCount + 1 != MAX_CLIENTS && uid < INT32_MAX
      requires ValidAddr(addr) && !HasFd(clients[..], connfd)
      modifies this`outbox, this`clientCount, this`uid, clients
      ensures Serving() && ok
      ensures uid == old(uid) + 1 && !HasUid(old(clients[..]), old(uid))
      ensures clients[..] == Added(old(clients[..]), Client(addr, connfd, old(uid)))
      ensures clientCount == old(clientCount) + 1
      ensures outbox == old(outbox)
        + Deliver(Fanout(old(clients[..]), All), WireOf(ConnectOtherNotice(old(uid), addr)))
        + [Delivery(connfd, WireOf(Notice(old(uid), CONNECT_SELF)))]
    {
      var client := Client(addr, connfd, uid);
      assert !HasUid(clients[..], client.uid);
      uid := uid + 1;
      ConnectedSlots(clients[..], client);
      QueueAdd(client);
      NotifyConnected(client);
      ok := true;
    }

    /**
     * The notices of HandleClientConnected once `c` is registered: the
     * CONNECT_OTHER notice to every other client, then the CONNECT_SELF
     * notice to the first client on its descriptor.
     */
    method NotifyConnected(c: Client)
      requires Valid() && IsInt32(c.uid) && ValidAddr(c.addr)
      modifies this`outbox
      ensures outbox == old(outbox)
        + Deliver(Recipients(clients[..], AllBut(c.uid)), WireOf(ConnectOtherNotice(c.uid, c.addr)))
        + Deliver(Recipients(clients[..], ToFd(c.connfd)), WireOf(Notice(c.uid, CONNECT_SELF)))
    {
      TagsText();
      var connectOtherMessage := ConnectOtherMessage(c.uid, c.addr);
      FrameOfAppending(connectOtherMessage);
      SendMessage(connectOtherMessage, c.uid);

      var connectSelfMessage := NoticeMessage(c.uid, CONNECT_SELF);
      FrameOfAppending(connectSelfMessage);
      SendMessageSelf(connectSelfMessage, c.connfd);
    }

    /**
     * The accept step of the event loop: a connection arriving while
     * clientCount + 1 == MAX_CLIENTS is closed unannounced; any other is
     * registered by HandleClientConnected.
     */
    method Accept(addr: Addr, connfd: int) returns (accepted: bool)
      requires Serving() && uid < INT32_MAX
      requires ValidAddr(addr) && !HasFd(clients[..], connfd)
      modifies this`outbox, this`clientCount, this`uid, clients
      ensures Serving()
      ensures accepted <==> old(clientCount) + 1 != MAX_CLIENTS
      ensures !accepted ==>
        (clients[..] == old(clients[..]) && clientCount == old(clientCount)
         && uid == old(uid) && outbox == old(outbox))
      ensures accepted ==>
        (uid == old(uid) + 1 && clientCount == old(clientCount) + 1
         && clients[..] == Added(old(clients[..]), Client(addr, connfd, old(uid)))
         && outbox == old(outbox)
           + Deliver(Fanout(old(clients[..]), All), WireOf(ConnectOtherNotice(old(uid), addr)))
           + [Delivery(connfd, WireOf(Notice(old(uid), CONNECT_SELF)))])
    {
      if clientCount + 1 == MAX_CLIENTS {
        accepted := false;
      } else {
        accepted := HandleClientConnected(addr, connfd);
      }
    }

    /**
     * The default handler: sends [sender uid] followed by the message
     * content to every client but the sender.
     */
    method HandleClientMessage(c: Client, message: Message)
      requires Valid() && IsInt32(c.uid)
      requires message.Valid() && message.length <= RelayCapacity(c.uid)
      modifies this`outbox
      ensures outbox == old(outbox) + Deliver(Recipients(clients[..], AllBut(c.uid)),
        WireOf(Field(Decimal(c.uid)) + message.MessageContent(message.length)))
    {
      DecimalInt32Length(c.uid);
      var out := new Message();
      out.WriteNumber(c.uid);
      var length := message.MessageLength();
      var content := message.MessageContent(length);
      out.WriteBytes(content, length);
      assert content[..length] == content;
      assert out.Written() == Field(Decimal(c.uid)) + content;
      FrameOfAppending(out);
      SendMessage(out, c.uid);
    }

    /**
     * Serves one ready client (the body of the read loop of the event loop
     * for one slot): read one frame, then evict on end of stream, drop an
     * oversized frame, or hand the payload to the default handler.
     */
    method ServeClient(k: nat, stream: seq<byte>) returns (rest: seq<byte>)
      requires Serving() && k < MAX_CLIENTS && clients[k].Some?
      requires FrameReadable(stream, clients[k].value.uid)
      modifies this`outbox, this`clientCount, clients
      ensures Serving() && uid == old(uid)
      ensures rest == ReadFrame(stream).1
      ensures ReadFrame(stream).0.Closed? ==>
        && clients[..] == Deleted(old(clients[..]), old(clients[k].value.uid))
        && clientCount == old(clientCount) - 1
        && outbox == old(outbox) + Deliver(Fanout(clients[..], All), WireOf(Notice(old(clients[k].value.uid), DISCONNECT)))
      ensures ReadFrame(stream).0.Discarded? ==>
        clients[..] == old(clients[..]) && clientCount == old(clientCount) && outbox == old(outbox)
      ensures ReadFrame(stream).0.Payload? ==>
        && clients[..] == old(clients[..]) && clientCount == old(clientCount)
        && IsInt32(old(clients[k].value.uid))
        && outbox == old(outbox) + Deliver(Recipients(clients[..], AllBut(old(clients[k].value.uid))),
             WireOf(Relay(old(clients[k].value.uid), ReadFrame(stream).0.bytes)))
    {
      var client := clients[k].value;
      assert Occupied(clients[..], k);
      assert FIRST_UID <= client.uid < uid;
      assert Registered(client);
      if |stream| == 0 {
        HandleClientDisconnected(client);
        return [];
      }
      var length := DecodeBE32(stream[..4]);
      if length > MESSAGE_SIZE {
        var pos := Skip(stream, length);
        if pos < 4 + length {
          HandleClientDisconnected(client);
          return [];
        }
        return stream[pos..];
      }
      var message, pos := ReadPayload(stream, length);
      if length >= 0 && pos < 4 + length {
        HandleClientDisconnected(client);
        return [];
      }
      ReadFramePayload(stream, pos);
      DecimalInt32Length(client.uid);
      assert |stream[4..pos]| <= RelayCapacity(client.uid);
      RelayPayload(client, message, stream[4..pos]);
      rest := stream[pos..];
    }

    /** Rewinds the message read from a client and hands it to the default handler. */
    method RelayPayload(c: Client, message: Message, ghost payload: seq<byte>)
      requires Valid() && IsInt32(c.uid) && |payload| <= RelayCapacity(c.uid)
      requires message.Valid() && message.Appending() && message.Written() == payload
      modifies this`outbox, message`index
      ensures outbox == old(outbox) + Deliver(Recipients(clients[..], AllBut(c.uid)), WireOf(Relay(c.uid, payload)))
    {
      message.Rewind();
      ContentPastWritten(message);
      DecimalInt32Length(c.uid);
      assert Field(Decimal(c.uid)) + message.MessageContent(message.length) == Relay(c.uid, payload);
      HandleClientMessage(c, message);
    }
  }

  /** A payload read completely is what ReadFrame reads, and the stream goes on after it. */
  lemma ReadFramePayload(stream: seq<byte>, pos: nat)
    requires |stream| >= 4 && DecodeBE32(stream[..4]) <= MESSAGE_SIZE
    requires pos == (if DecodeBE32(stream[..4]) <= 0 then 4 else 4 + DecodeBE32(stream[..4])) <= |stream|
    ensures ReadFrame(stream) == (Payload(stream[4..pos]), stream[pos..])
  {
    var length := DecodeBE32(stream[..4]);
    var n := if length < 0 then 0 else length;
    assert n == pos - 4;
    var body := stream[4..];
    assert |body| >= n;
    assert body[..n] == stream[4..pos];
    assert body[n..] == stream[pos..];
  }

  /** Builds the message [uid, tag], writing the tag as a NUL-terminated literal. */
  method NoticeMessage(uid: int, tag: seq<byte>) returns (m: Message)
    requires IsInt32(uid) && |tag| <= 100 && 0 !in tag
    ensures fresh(m) && fresh(m.bytes) && m.Valid() && m.Appending()
    ensures 4 + m.length <= MESSAGE_SIZE && m.Written() == Notice(uid, tag)
  {
    DecimalInt32Length(uid);
    m := new Message();
    m.WriteNumber(uid);
    assert m.Written() == Field(Decimal(uid));
    CStrTerminated(tag, []);
    assert tag + [0] + [] == tag + [0];
    m.WriteNullString(tag + [0]);
    assert m.Written() == Field(Decimal(uid)) + Field(tag);
  }

  /** Builds the message [uid, "CONNECT_OTHER", ip, port]. */
  method ConnectOtherMessage(uid: int, addr: Addr) returns (m: Message)
    requires IsInt32(uid) && ValidAddr(addr)
    ensures fresh(m) && fresh(m.bytes) && m.Valid() && m.Appending()
    ensures 4 + m.length <= MESSAGE_SIZE && m.Written() == ConnectOtherNotice(uid, addr)
  {
    DecimalInt32Length(uid);
    DecimalInt32Length(addr.port);
    TagsText();
    m := NoticeMessage(uid, CONNECT_OTHER);
    ghost var w0 := m.Written();
    m.WriteNullString(addr.ip);
    ghost var w1 := m.Written();
    assert w1 == w0 + Field(CStr(addr.ip));
    m.WriteNumber(addr.port);
    assert m.Written() == w1 + Field(Decimal(addr.port));
  }

  /**
   * The loop that reads and drops the `length` bytes of an oversized frame
   * one at a time: the position after the last byte it could read.
   */
  method Skip(stream: seq<byte>, length: int) returns (pos: nat)
    requires |stream| >= 4
    ensures pos == if length <= 0 then 4 else if 4 + length <= |stream| then 4 + length else |stream|
  {
    pos := 4;
    var i := 0;
    while i < length
      invariant 0 <= i <= (if length < 0 then 0 else length) && pos == 4 + i <= |stream|
    {
      if pos == |stream| {
        return;
      }
      pos := pos + 1;
      i := i + 1;
    }
  }

  /**
   * The loop that reads the payload into a fresh message one byte at a
   * time: the message holds every byte read, and `pos` is the position
   * after the last one.
   */
  method ReadPayload(stream: seq<byte>, length: int) returns (message: Message, pos: nat)
    requires |stream| >= 4 && length <= MESSAGE_SIZE
    ensures fresh(message) && fresh(message.bytes) && message.Valid() && message.Appending()
    ensures pos == if length <= 0 then 4 else if 4 + length <= |stream| then 4 + length else |stream|
    ensures message.Written() == stream[4..pos]
  {
    message := new Message();
    pos := 4;
    var i := 0;
    while i < length
      invariant 0 <= i <= (if length < 0 then 0 else length) && pos == 4 + i <= |stream|
      invariant fresh(message) && fresh(message.bytes) && message.Valid() && message.Appending()
      invariant message.Written() == stream[4..pos]
    {
      if pos == |stream| {
        return;
      }
      message.WriteByte(stream[pos]);
      assert stream[4..pos + 1] == stream[4..pos] + [stream[pos]];
      pos := pos + 1;
      i := i + 1;
    }
  }
}
