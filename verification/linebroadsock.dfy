/**
 * The older newline-delimited relay server: the same registry, delivery
 * policies and accept cap as the binary server, over global state, with
 * one text line per readiness event and JSON-like notices.  The notices
 * are kept as event records (what was announced, about whom), not as the
 * formatted text; socket reads consume a byte sequence that stands for
 * what the peer sent.
 */
module LineBroadsock {
  import opened Bytes
  import opened Registry

  const MESSAGE_SIZE: nat := 8192
  const NEWLINE: byte := 10
  const CARRIAGE_RETURN: byte := 13

  /**
   * The notices the server formats and sends, one text line each.  Every
   * notice names its event kind and the uid it is about; a connection
   * announced to the others also carries the client's address text and raw
   * port, and a relayed line carries its text.  Both kinds of connection
   * notice are labelled CONNECT on the wire: the announcement to the others
   * is told apart from the one to the new client only by its extra fields.
   */
  datatype Event =
    | DisconnectEvent(uid: int)
    | ConnectOtherEvent(uid: int, ip: seq<byte>, port: int)
    | ConnectSelfEvent(uid: int)
    | DataEvent(uid: int, data: seq<byte>)

  type Notice = Delivery<Event>

  // ---------------------------------------------------------------- strip_newline

  /**
   * strip_newline on a NUL-terminated buffer: every CR and LF before the
   * original terminator becomes NUL; every other byte stays.
   */
  function Stripped(s: seq<byte>): (r: seq<byte>)
    ensures |r| == |s|
    ensures forall i :: 0 <= i < |s| ==>
      r[i] == (if i < |CStr(s)| && (s[i] == CARRIAGE_RETURN || s[i] == NEWLINE) then 0 else s[i])
  {
    var n := |CStr(s)|;
    seq(|s|, i requires 0 <= i < |s| => if i < n && (s[i] == CARRIAGE_RETURN || s[i] == NEWLINE) then 0 else s[i])
  }

  /** The first CR or LF, or |s| when there is none. */
  function LineBreak(s: seq<byte>): (k: nat)
    ensures k <= |s|
    ensures k < |s| ==> s[k] == CARRIAGE_RETURN || s[k] == NEWLINE
    ensures forall j :: 0 <= j < k ==> s[j] != CARRIAGE_RETURN && s[j] != NEWLINE
  {
    if s == [] then 0
    else if s[0] == CARRIAGE_RETURN || s[0] == NEWLINE then 0
    else 1 + LineBreak(s[1..])
  }

  /** After strip_newline the string ends at its first line break. */
  lemma StrippedText(s: seq<byte>)
    ensures CStr(Stripped(s)) == CStr(s)[..LineBreak(CStr(s))]
  {
    var c := CStr(s);
    var k := LineBreak(c);
    var r := Stripped(s);
    var t := c[..k];
    assert 0 !in t;
    if k < |c| {
      assert r[k] == 0;
      assert r == t + [0] + r[k + 1..];
      CStrTerminated(t, r[k + 1..]);
    } else if |c| < |s| {
      assert r[|c|] == 0;
      assert r == t + [0] + r[|c| + 1..];
      CStrTerminated(t, r[|c| + 1..]);
    } else {
      assert r == t;
      CStrWithoutNul(t);
    }
  }

  /** strip_newline is idempotent. */
  lemma StripIdempotent(s: seq<byte>)
    ensures Stripped(Stripped(s)) == Stripped(s)
  {
    var r := Stripped(s);
    StrippedText(s);
    forall i | 0 <= i < |r|
      ensures Stripped(r)[i] == r[i]
    {
      if i < |CStr(r)| {
        assert CStr(r) == CStr(s)[..LineBreak(CStr(s))];
        assert r[i] == CStr(r)[i];
      }
    }
  }

  /** strip_newline: walks the buffer to its NUL, overwriting each CR and LF with NUL. */
  method StripNewline(a: array<byte>)
    requires 0 in a[..]
    modifies a
    ensures a[..] == Stripped(old(a[..]))
  {
    ghost var s := a[..];
    ghost var n := |CStr(s)|;
    var i := 0;
    while a[i] != 0
      invariant 0 <= i <= n < a.Length
      invariant forall j :: 0 <= j < i ==> a[j] == Stripped(s)[j]
      invariant forall j :: i <= j < a.Length ==> a[j] == s[j]
      decreases n - i
    {
      if a[i] == CARRIAGE_RETURN || a[i] == NEWLINE {
        a[i] := 0;
      }
      i := i + 1;
    }
    assert i == n;
  }

  // ---------------------------------------------------------------- line reader

  /** What one read of a line produced. */
  datatype LineRead =
    | Eof                     // the peer closed the connection before a newline
    | Overflow                // MESSAGE_SIZE bytes without a newline were read and dropped
    | Line(bytes: seq<byte>)  // the bytes before the newline

  /** The index of the first newline, or |s| when there is none. */
  function NewlineIndex(s: seq<byte>): (k: nat)
    ensures k <= |s|
    ensures k < |s| ==> s[k] == NEWLINE
    ensures NEWLINE !in s[..k]
  {
    if s == [] then 0
    else if s[0] == NEWLINE then 0
    else
      var k := 1 + NewlineIndex(s[1..]);
      assert s[..k] == [s[0]] + s[1..][..k - 1];
      k
  }

  /**
   * Reading one line from `stream` byte by byte: a newline ends the line
   * and is consumed, the end of the stream ends the connection, and a line
   * reaching MESSAGE_SIZE bytes is dropped with the bytes read so far.
   */
  function ScanLine(stream: seq<byte>): (r: (LineRead, seq<byte>))
    ensures r.0.Line? ==> |r.0.bytes| < MESSAGE_SIZE && NEWLINE !in r.0.bytes && stream == r.0.bytes + [NEWLINE] + r.1
    ensures r.0.Overflow? ==> MESSAGE_SIZE <= |stream| && NEWLINE !in stream[..MESSAGE_SIZE] && r.1 == stream[MESSAGE_SIZE..]
    ensures r.0.Eof? ==> |stream| < MESSAGE_SIZE && NEWLINE !in stream && r.1 == []
  {
    var k := NewlineIndex(stream);
    if k >= MESSAGE_SIZE then
      assert stream[..MESSAGE_SIZE] == stream[..k][..MESSAGE_SIZE];
      (Overflow, stream[MESSAGE_SIZE..])
    else if k == |stream| then
      assert stream[..k] == stream;
      (Eof, [])
    else
      assert stream == stream[..k] + [NEWLINE] + stream[k + 1..];
      (Line(stream[..k]), stream[k + 1..])
  }

  /** A line a client writes with its newline is read back whole, whatever follows it. */
  lemma LineRoundTrip(line: seq<byte>, rest: seq<byte>)
    requires |line| < MESSAGE_SIZE && NEWLINE !in line
    ensures ScanLine(line + [NEWLINE] + rest) == (Line(line), rest)
  {
    var s := line + [NEWLINE] + rest;
    var k := NewlineIndex(s);
    assert s[..|line|] == line;
    assert s[|line|] == NEWLINE;
    assert k == |line|;
    assert s[k + 1..] == rest;
  }

  /**
   * A line of MESSAGE_SIZE bytes or more is not dropped whole: the first
   * MESSAGE_SIZE bytes are, and the next read returns the rest of it as a
   * line of its own.
   */
  lemma OverlongLineTail(line: seq<byte>, rest: seq<byte>)
    requires MESSAGE_SIZE <= |line| < 2 * MESSAGE_SIZE && NEWLINE !in line
    ensures ScanLine(line + [NEWLINE] + rest) == (Overflow, line[MESSAGE_SIZE..] + [NEWLINE] + rest)
    ensures ScanLine(line[MESSAGE_SIZE..] + [NEWLINE] + rest) == (Line(line[MESSAGE_SIZE..]), rest)
  {
    var s := line + [NEWLINE] + rest;
    assert s[MESSAGE_SIZE..] == line[MESSAGE_SIZE..] + [NEWLINE] + rest;
    var tail := line[MESSAGE_SIZE..];
    assert forall j :: 0 <= j < |tail| ==> tail[j] == line[MESSAGE_SIZE + j];
    LineRoundTrip(tail, rest);
  }

  /**
   * The line-reading loop of the event loop: reads byte by byte into the
   * message buffer until a newline, the end of the stream, or a full buffer.
   */
  method ReadLine(stream: seq<byte>) returns (outcome: LineRead, rest: seq<byte>)
    ensures (outcome, rest) == ScanLine(stream)
  {
    var message := new byte[MESSAGE_SIZE](_ => 0);
    var length := 0;
    while true
      invariant 0 <= length < MESSAGE_SIZE && length <= |stream|
      invariant message[..length] == stream[..length]
      invariant NEWLINE !in stream[..length]
      decreases MESSAGE_SIZE - length
    {
      if length == |stream| {
        assert stream[..length] == stream;
        return Eof, [];
      }
      var ch := stream[length];
      if ch == NEWLINE {
        assert NewlineIndex(stream) == length;
        return Line(message[..length]), stream[length + 1..];
      }
      message[length] := ch;
      assert stream[..length + 1] == stream[..length] + [ch];
      length := length + 1;
      if length == MESSAGE_SIZE {
        assert NewlineIndex(stream) >= MESSAGE_SIZE;
        return Overflow, stream[length..];
      }
    }
  }

  // ---------------------------------------------------------------- server state

  class LineServer {
    var clients: array<Option<Client>>
    var clientCount: nat
    var uid: int
    var outbox: seq<Notice>

    /** The registry invariant: client_count counts the occupied slots. */
    ghost predicate Valid()
      reads this`clients, this`clientCount, clients
    {
      clients.Length == MAX_CLIENTS && clientCount == Count(clients[..])
    }

    /**
     * The invariant the accept loop keeps: at most MAX_CLIENTS - 1 clients,
     * distinct uids and descriptors, every uid below the next one.
     */
    ghost predicate Serving()
      reads this`clients, this`clientCount, this`uid, clients
    {
      Valid() && clientCount < MAX_CLIENTS &&
      Distinct(clients[..]) && UidsBelow(clients[..], uid) && FIRST_UID <= uid
    }

    ghost predicate Registered(c: Client)
      reads this`clients, clients
    {
      exists k :: 0 <= k < clients.Length && clients[k] == Some(c)
    }

    /** The globals at program start: empty slots, no clients, next uid 10. */
    constructor ()
      ensures Serving() && fresh(clients)
      ensures clientCount == 0 && uid == FIRST_UID && outbox == []
      ensures forall i :: 0 <= i < MAX_CLIENTS ==> clients[i].None?
    {
      clients := new Option<Client>[MAX_CLIENTS](_ => None);
      clientCount := 0;
      uid := FIRST_UID;
      outbox := [];
      new;
      CountZero(clients[..]);
    }

    /** queue_add: the first empty slot takes the client; a full registry is left as it is. */
    method QueueAdd(c: Client)
      requires Valid()
      modifies clients, this`clientCount
      ensures Valid()
      ensures clients[..] == Added(old(clients[..]), c)
      ensures clientCount == old(clientCount) + (if old(clientCount) < MAX_CLIENTS then 1 else 0)
    {
      AddedSlots(clients[..], c);
      for i := 0 to MAX_CLIENTS
        invariant clients[..] == old(clients[..]) && clientCount == old(clientCount)
        invariant forall j :: 0 <= j < i ==> clients[j].Some?
      {
        if clients[i].None? {
          clients[i] := Some(c);
          clientCount := clientCount + 1;
          return;
        }
      }
    }

    /** queue_delete: the first slot holding uid `u` is emptied; an absent uid changes nothing. */
    method QueueDelete(u: int)
      requires Valid()
      modifies clients, this`clientCount
      ensures Valid()
      ensures clients[..] == Deleted(old(clients[..]), u)
      ensures clientCount == old(clientCount) - (if HasUid(old(clients[..]), u) then 1 else 0)
    {
      DeletedSlots(clients[..], u);
      for i := 0 to MAX_CLIENTS
        invariant clients[..] == old(clients[..]) && clientCount == old(clientCount)
        invariant forall j :: 0 <= j < i ==> !(clients[j].Some? && Matches(ToUid(u), clients[j].value))
      {
        if clients[i].Some? && clients[i].value.uid == u {
          clients[i] := None;
          clientCount := clientCount - 1;
          return;
        }
      }
    }

    /** send_message: the notice goes to every client whose uid is not `u`. */
    method SendMessage(e: Event, u: int)
      requires Valid()
      modifies this`outbox
      ensures outbox == old(outbox) + Deliver(Recipients(clients[..], AllBut(u)), e)
    {
      for i := 0 to MAX_CLIENTS
        invariant outbox == old(outbox) + Deliver(Fanout(clients[..i], AllBut(u)), e)
      {
        var client := clients[i];
        assert clients[..i + 1][..i] == clients[..i];
        if client.Some? && client.value.uid != u {
          outbox := outbox + [Delivery(client.value.connfd, e)];
        }
      }
      assert clients[..MAX_CLIENTS] == clients[..];
    }

    /** send_message_all: the notice goes to every client. */
    method SendMessageAll(e: Event)
      requires Valid()
      modifies this`outbox
      ensures outbox == old(outbox) + Deliver(Recipients(clients[..], All), e)
    {
      for i := 0 to MAX_CLIENTS
        invariant outbox == old(outbox) + Deliver(Fanout(clients[..i], All), e)
      {
        var client := clients[i];
        assert clients[..i + 1][..i] == clients[..i];
        if client.Some? {
          outbox := outbox + [Delivery(client.value.connfd, e)];
        }
      }
      assert clients[..MAX_CLIENTS] == clients[..];
    }

    /** send_message_self: the notice goes to the first client on descriptor `connfd`, if any. */
    method SendMessageSelf(e: Event, connfd: int)
      requires Valid()
      modifies this`outbox
      ensures outbox == old(outbox) + Deliver(Recipients(clients[..], ToFd(connfd)), e)
    {
      for i := 0 to MAX_CLIENTS
        invariant outbox == old(outbox)
        invariant forall j :: 0 <= j < i ==> !(clients[j].Some? && Matches(ToFd(connfd), clients[j].value))
      {
        var client := clients[i];
        if client.Some? && client.value.connfd == connfd {
          outbox := outbox + [Delivery(client.value.connfd, e)];
          return;
        }
      }
    }

    /** send_message_client: the notice goes to the first client with uid `u`, if any. */
    method SendMessageClient(e: Event, u: int)
      requires Valid()
      modifies this`outbox
      ensures outbox == old(outbox) + Deliver(Recipients(clients[..], ToUid(u)), e)
    {
      for i := 0 to MAX_CLIENTS
        invariant outbox == old(outbox)
        invariant forall j :: 0 <= j < i ==> !(clients[j].Some? && Matches(ToUid(u), clients[j].value))
      {
        var client := clients[i];
        if client.Some? && client.value.uid == u {
          outbox := outbox + [Delivery(client.value.connfd, e)];
          return;
        }
      }
    }

    /**
     * handle_client_disconnected: every other client hears DISCONNECT,
     * then the client's slot is emptied.
     */
    method HandleClientDisconnected(c: Client)
      requires Serving() && Registered(c)
      modifies this`outbox, this`clientCount, clients
      ensures Serving() && uid == old(uid)
      ensures clients[..] == Deleted(old(clients[..]), c.uid) && !HasUid(clients[..], c.uid)
      ensures clientCount == old(clientCount) - 1
      ensures outbox == old(outbox) + Deliver(Fanout(clients[..], All), DisconnectEvent(c.uid))
    {
      ghost var k :| 0 <= k < clients.Length && clients[k] == Some(c);
      assert Occupied(clients[..], k);
      assert HasUid(clients[..], c.uid);
      SendMessage(DisconnectEvent(c.uid), c.uid);
      DisconnectRecipients(clients[..], c.uid);
      DeleteIdempotent(clients[..], c.uid);
      DeletedDistinct(clients[..], c.uid, uid);
      QueueDelete(c.uid);
    }

    /**
     * handle_client_connected: registers the connection under the next
     * uid, tells every client already registered about it, and tells the
     * new client its uid.
     */
    method HandleClientConnected(addr: Addr, connfd: int)
      requires Serving() && clientCount + 1 != MAX_CLIENTS
      requires !HasFd(clients[..], connfd)
      modifies this`outbox, this`clientCount, this`uid, clients
      ensures Serving()
      ensures uid == old(uid) + 1 && !HasUid(old(clients[..]), old(uid))
      ensures clients[..] == Added(old(clients[..]), Client(addr, connfd, old(uid)))
      ensures clientCount == old(clientCount) + 1
      ensures outbox == old(outbox)
        + Deliver(Fanout(old(clients[..]), All), ConnectOtherEvent(old(uid), CStr(addr.ip), addr.port))
        + [Delivery(connfd, ConnectSelfEvent(old(uid)))]
    {
      var client := Client(addr, connfd, uid);
      assert !HasUid(clients[..], client.uid);
      uid := uid + 1;
      ConnectedSlots(clients[..], client);
      QueueAdd(client);
      SendMessage(ConnectOtherEvent(client.uid, CStr(addr.ip), addr.port), client.uid);
      SendMessageSelf(ConnectSelfEvent(client.uid), connfd);
    }

    /**
     * The accept step of main's loop: a connection arriving while
     * client_count + 1 == MAX_CLIENTS is closed unannounced; any other is
     * registered by handle_client_connected.
     */
    method Accept(addr: Addr, connfd: int) returns (accepted: bool)
      requires Serving() && !HasFd(clients[..], connfd)
      modifies this`outbox, this`clientCount, this`uid, clients
      ensures Serving()
      ensures accepted <==> old(clientCount) + 1 != MAX_CLIENTS
      ensures !accepted ==>
        (clients[..] == old(clients[..]) && clientCount == old(clientCount)
         && uid == old(uid) && outbox == old(outbox))
      ensures accepted ==>
        (uid == old(uid) + 1 && clientCount == old(clientCount) + 1
         && clients[..] == Added(old(clients[..]), Client(addr, connfd, old(uid)))
         && outbox == old(outbox)
           + Deliver(Fanout(old(clients[..]), All), ConnectOtherEvent(old(uid), CStr(addr.ip), addr.port))
           + [Delivery(connfd, ConnectSelfEvent(old(uid)))])
    {
      if clientCount + 1 == MAX_CLIENTS {
        accepted := false;
      } else {
        HandleClientConnected(addr, connfd);
        accepted := true;
      }
    }

    /**
     * Serves one ready client (the body of main's read loop for one slot):
     * reads a line, then evicts on end of stream, drops an overlong line,
     * forwards a non-empty line as DATA to every other client, and ignores
     * an empty one.
     */
    method ServeClient(k: nat, stream: seq<byte>) returns (rest: seq<byte>)
      requires Serving() && k < MAX_CLIENTS && clients[k].Some?
      modifies this`outbox, this`clientCount, clients
      ensures Serving() && uid == old(uid)
      ensures rest == ScanLine(stream).1
      ensures ScanLine(stream).0.Eof? ==>
        && clients[..] == Deleted(old(clients[..]), old(clients[k].value.uid))
        && clientCount == old(clientCount) - 1
        && outbox == old(outbox) + Deliver(Fanout(clients[..], All), DisconnectEvent(old(clients[k].value.uid)))
      ensures !ScanLine(stream).0.Eof? ==> clients[..] == old(clients[..]) && clientCount == old(clientCount)
      ensures (ScanLine(stream).0.Overflow? || ScanLine(stream).0 == Line([])) ==> outbox == old(outbox)
      ensures ScanLine(stream).0.Line? && ScanLine(stream).0.bytes != [] ==>
        outbox == old(outbox) + Deliver(Recipients(clients[..], AllBut(old(clients[k].value.uid))),
          DataEvent(old(clients[k].value.uid), CStr(ScanLine(stream).0.bytes)))
    {
      var client := clients[k].value;
      assert Registered(client);
      var outcome;
      outcome, rest := ReadLine(stream);
      match outcome
      case Eof =>
        HandleClientDisconnected(client);
      case Overflow =>
      case Line(message) =>
        if |message| > 0 {
          SendMessage(DataEvent(client.uid, CStr(message)), client.uid);
        }
    }
  }
}
