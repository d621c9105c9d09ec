/**
 * The client registry both servers keep: a fixed array of MAX_CLIENTS slots,
 * each empty or holding one connected client, scanned from slot 0 up.  This
 * module holds the value-level meaning of the slot scans (first free slot,
 * first slot with a uid or descriptor, the recipients of each delivery
 * policy); the servers' methods are proved against it.
 */
module Registry {
  import opened Bytes

  const MAX_CLIENTS: nat := 5
  /** The uid handed to the first accepted client. */
  const FIRST_UID: int := 10

  datatype Option<+T> = None | Some(value: T)

  /** The peer address captured at accept time: inet_ntoa's dotted text and the raw `sin_port`. */
  datatype Addr = Addr(ip: seq<byte>, port: int)

  /** An address accept can return: at most 15 characters of dotted text and a 16-bit port. */
  predicate ValidAddr(a: Addr) {
    |a.ip| <= 15 && 0 <= a.port < 0x1_0000
  }

  /** One connected client: its address, its socket descriptor and its uid. */
  datatype Client = Client(addr: Addr, connfd: int, uid: int)

  type Slots = seq<Option<Client>>

  /** One send: the bytes or event `body` written to descriptor `fd`. */
  datatype Delivery<T> = Delivery(fd: int, body: T)

  /** The sends of `body` to each descriptor of `fds`, in order. */
  function Deliver<T>(fds: seq<int>, body: T): (ds: seq<Delivery<T>>)
    ensures |ds| == |fds|
    ensures forall i :: 0 <= i < |fds| ==> ds[i] == Delivery(fds[i], body)
  {
    seq(|fds|, i requires 0 <= i < |fds| => Delivery(fds[i], body))
  }

  /** The four delivery policies of the dispatchers. */
  datatype Policy =
    | AllBut(uid: int)   // SendMessage: every client whose uid differs
    | All                // SendMessageAll
    | ToFd(fd: int)      // SendMessageSelf: the first client on this descriptor
    | ToUid(uid: int)    // SendMessageClient: the first client with this uid

  predicate Matches(p: Policy, c: Client) {
    match p
    case AllBut(u) => c.uid != u
    case All => true
    case ToFd(f) => c.connfd == f
    case ToUid(u) => c.uid == u
  }

  predicate Occupied(s: Slots, i: int) {
    0 <= i < |s| && s[i].Some?
  }

  /** The number of occupied slots. */
  function Count(s: Slots): (n: nat)
    ensures n <= |s|
  {
    if s == [] then 0 else Count(s[..|s| - 1]) + (if s[|s| - 1].Some? then 1 else 0)
  }

  lemma {:induction false} CountZero(s: Slots)
    ensures Count(s) == 0 <==> forall i :: 0 <= i < |s| ==> s[i].None?
  {
    if s != [] {
      CountZero(s[..|s| - 1]);
      assert forall i :: 0 <= i < |s| - 1 ==> s[..|s| - 1][i] == s[i];
    }
  }

  lemma {:induction false} CountFull(s: Slots)
    ensures Count(s) == |s| <==> forall i :: 0 <= i < |s| ==> s[i].Some?
  {
    if s != [] {
      CountFull(s[..|s| - 1]);
      assert forall i :: 0 <= i < |s| - 1 ==> s[..|s| - 1][i] == s[i];
    }
  }

  /** Replacing one slot changes the count by what left and what came in. */
  lemma {:induction false} CountUpdate(s: Slots, k: nat, x: Option<Client>)
    requires k < |s|
    ensures Count(s[k := x]) == Count(s) - (if s[k].Some? then 1 else 0) + (if x.Some? then 1 else 0)
  {
    var t := s[k := x];
    if k < |s| - 1 {
      assert t[..|t| - 1] == s[..|s| - 1][k := x];
      CountUpdate(s[..|s| - 1], k, x);
    } else {
      assert t[..|t| - 1] == s[..|s| - 1];
    }
  }

  /** The first empty slot, or |s| when every slot is taken. */
  function FirstFree(s: Slots): (k: nat)
    ensures k <= |s|
    ensures k < |s| ==> s[k].None?
    ensures forall j :: 0 <= j < k ==> s[j].Some?
  {
    if s == [] then 0 else if s[0].None? then 0 else 1 + FirstFree(s[1..])
  }

  /** The first occupied slot whose client satisfies the policy, or |s| when there is none. */
  function FirstMatch(s: Slots, p: Policy): (k: nat)
    ensures k <= |s|
    ensures k < |s| ==> s[k].Some? && Matches(p, s[k].value)
    ensures forall j :: 0 <= j < k ==> !(s[j].Some? && Matches(p, s[j].value))
  {
    if s == [] then 0
    else if s[0].Some? && Matches(p, s[0].value) then 0
    else 1 + FirstMatch(s[1..], p)
  }

  /** QueueAdd: the client goes into the first empty slot; a full registry stays as it is. */
  function Added(s: Slots, c: Client): (a: Slots)
    ensures |a| == |s|
    ensures FirstFree(s) < |s| ==> a[FirstFree(s)] == Some(c)
    ensures forall j :: 0 <= j < |s| && j != FirstFree(s) ==> a[j] == s[j]
  {
    var k := FirstFree(s);
    if k < |s| then s[k := Some(c)] else s
  }

  /** QueueDelete: the first slot holding uid `u` is emptied; an absent uid changes nothing. */
  function Deleted(s: Slots, u: int): (d: Slots)
    ensures |d| == |s|
    ensures FirstMatch(s, ToUid(u)) < |s| ==> d[FirstMatch(s, ToUid(u))].None?
    ensures forall j :: 0 <= j < |s| && j != FirstMatch(s, ToUid(u)) ==> d[j] == s[j]
  {
    var k := FirstMatch(s, ToUid(u));
    if k < |s| then s[k := None] else s
  }

  predicate HasUid(s: Slots, u: int) {
    exists i :: 0 <= i < |s| && s[i].Some? && s[i].value.uid == u
  }

  predicate HasFd(s: Slots, fd: int) {
    exists i :: 0 <= i < |s| && s[i].Some? && s[i].value.connfd == fd
  }

  /** No two occupied slots share a uid or a socket descriptor. */
  ghost predicate Distinct(s: Slots) {
    forall i, j :: Occupied(s, i) && Occupied(s, j) && i != j ==>
      s[i].value.uid != s[j].value.uid && s[i].value.connfd != s[j].value.connfd
  }

  /** Every registered uid is below `next`, the uid the next client will get. */
  ghost predicate UidsBelow(s: Slots, next: int) {
    forall i :: Occupied(s, i) ==> FIRST_UID <= s[i].value.uid < next
  }

  /** QueueAdd adds exactly one occupied slot when one is free, none otherwise, and keeps the others. */
  lemma AddedSlots(s: Slots, c: Client)
    ensures |Added(s, c)| == |s|
    ensures FirstFree(s) < |s| ==> Count(Added(s, c)) == Count(s) + 1 && Added(s, c)[FirstFree(s)] == Some(c)
    ensures FirstFree(s) == |s| <==> Count(s) == |s|
    ensures FirstFree(s) == |s| ==> Added(s, c) == s
    ensures forall j :: 0 <= j < |s| && j != FirstFree(s) ==> Added(s, c)[j] == s[j]
  {
    CountFull(s);
    if FirstFree(s) < |s| {
      CountUpdate(s, FirstFree(s), Some(c));
    }
  }

  /** QueueDelete empties exactly the slot of `u` when `u` is registered and otherwise changes nothing. */
  lemma DeletedSlots(s: Slots, u: int)
    ensures |Deleted(s, u)| == |s|
    ensures HasUid(s, u) ==> Count(Deleted(s, u)) == Count(s) - 1
    ensures !HasUid(s, u) ==> Deleted(s, u) == s
    ensures forall j :: 0 <= j < |s| && j != FirstMatch(s, ToUid(u)) ==> Deleted(s, u)[j] == s[j]
  {
    var k := FirstMatch(s, ToUid(u));
    if HasUid(s, u) {
      var i :| 0 <= i < |s| && s[i].Some? && s[i].value.uid == u;
      assert Matches(ToUid(u), s[i].value);
      CountUpdate(s, k, None);
    }
  }

  /** A second QueueDelete of the same uid changes nothing, since uids are distinct. */
  lemma DeleteIdempotent(s: Slots, u: int)
    requires Distinct(s)
    ensures !HasUid(Deleted(s, u), u)
    ensures Deleted(Deleted(s, u), u) == Deleted(s, u)
  {
    var k := FirstMatch(s, ToUid(u));
    var t := Deleted(s, u);
    forall i | Occupied(t, i)
      ensures t[i].value.uid != u
    {
      assert t[i] == s[i];
      assert !Matches(ToUid(u), s[i].value) || (k < |s| && Occupied(s, k) && i != k);
    }
    DeletedSlots(t, u);
  }

  /** Adding a client with a fresh uid and descriptor keeps uids and descriptors distinct. */
  lemma AddedDistinct(s: Slots, c: Client)
    requires Distinct(s) && UidsBelow(s, c.uid) && !HasFd(s, c.connfd)
    ensures Distinct(Added(s, c))
  {
    AddedSlots(s, c);
  }

  /** The client added under the next uid keeps every uid below the one after it. */
  lemma AddedUidsBelow(s: Slots, c: Client)
    requires UidsBelow(s, c.uid) && FIRST_UID <= c.uid
    ensures UidsBelow(Added(s, c), c.uid + 1)
  {
    AddedSlots(s, c);
  }

  /**
   * Registering a client with the next uid and an unused descriptor in a
   * registry with a free slot: one more client, the invariants kept, the
   * clients registered before it are the others, and its descriptor leads
   * to it alone.
   */
  lemma ConnectedSlots(s: Slots, c: Client)
    requires Count(s) < |s| && Distinct(s) && UidsBelow(s, c.uid) && FIRST_UID <= c.uid
    requires !HasFd(s, c.connfd)
    ensures Count(Added(s, c)) == Count(s) + 1
    ensures Distinct(Added(s, c)) && UidsBelow(Added(s, c), c.uid + 1)
    ensures Recipients(Added(s, c), AllBut(c.uid)) == Fanout(s, All)
    ensures Recipients(Added(s, c), ToFd(c.connfd)) == [c.connfd]
  {
    AddedSlots(s, c);
    AddedDistinct(s, c);
    AddedUidsBelow(s, c);
    ConnectOtherRecipients(s, c);
    var k := FirstFree(s);
    assert Occupied(Added(s, c), k);
    TargetedReachesOne(Added(s, c), k);
  }

  lemma DeletedDistinct(s: Slots, u: int, next: int)
    requires Distinct(s) && UidsBelow(s, next)
    ensures Distinct(Deleted(s, u)) && UidsBelow(Deleted(s, u), next)
    ensures forall fd :: HasFd(Deleted(s, u), fd) ==> HasFd(s, fd)
  {
    DeletedSlots(s, u);
    forall fd | HasFd(Deleted(s, u), fd) ensures HasFd(s, fd) {
      var t := Deleted(s, u);
      var i :| 0 <= i < |t| && t[i].Some? && t[i].value.connfd == fd;
      assert t[i] == s[i];
    }
  }

  /** The descriptors of every occupied slot that satisfies the policy, in slot order. */
  function Fanout(s: Slots, p: Policy): (f: seq<int>)
    ensures |f| <= Count(s)
    ensures p.All? ==> |f| == Count(s)
  {
    if s == [] then []
    else
      var last := s[|s| - 1];
      Fanout(s[..|s| - 1], p) + (if last.Some? && Matches(p, last.value) then [last.value.connfd] else [])
  }

  /**
   * The descriptors a dispatcher sends to: every match for the two broadcast
   * policies, only the first match for the two targeted ones.
   */
  function Recipients(s: Slots, p: Policy): (r: seq<int>)
    ensures |r| <= Count(s)
    ensures (p.ToFd? || p.ToUid?) ==> |r| <= 1
  {
    CountZero(s);
    match p
    case AllBut(_) => Fanout(s, p)
    case All => Fanout(s, p)
    case _ =>
      var k := FirstMatch(s, p);
      if k < |s| then [s[k].value.connfd] else []
  }

  /** A broadcast reaches a descriptor exactly when some occupied slot on it satisfies the policy. */
  lemma {:induction false} FanoutMembers(s: Slots, p: Policy, fd: int)
    ensures fd in Fanout(s, p) <==> exists i :: Occupied(s, i) && Matches(p, s[i].value) && s[i].value.connfd == fd
  {
    if s != [] {
      var init := s[..|s| - 1];
      FanoutMembers(init, p, fd);
      assert forall i :: 0 <= i < |init| ==> init[i] == s[i];
      if fd in Fanout(init, p) {
        var i :| Occupied(init, i) && Matches(p, init[i].value) && init[i].value.connfd == fd;
        assert Occupied(s, i);
      }
    }
  }

  /** With distinct descriptors, a broadcast sends at most once to each descriptor. */
  lemma {:induction false} FanoutNoRepeat(s: Slots, p: Policy)
    requires Distinct(s)
    ensures forall i, j :: 0 <= i < j < |Fanout(s, p)| ==> Fanout(s, p)[i] != Fanout(s, p)[j]
  {
    if s != [] {
      var init := s[..|s| - 1];
      var last := s[|s| - 1];
      assert forall i :: 0 <= i < |init| ==> init[i] == s[i];
      assert Distinct(init) by {
        forall i, j | Occupied(init, i) && Occupied(init, j) && i != j
          ensures init[i].value.uid != init[j].value.uid && init[i].value.connfd != init[j].value.connfd
        {
          assert Occupied(s, i) && Occupied(s, j);
        }
      }
      FanoutNoRepeat(init, p);
      if last.Some? && Matches(p, last.value) {
        var fd := last.value.connfd;
        if fd in Fanout(init, p) {
          FanoutMembers(init, p, fd);
          var i :| Occupied(init, i) && Matches(p, init[i].value) && init[i].value.connfd == fd;
          assert Occupied(s, i) && Occupied(s, |s| - 1) && i != |s| - 1;
          assert false;
        }
      }
    }
  }

  /**
   * SendMessage(m, u) for a registered client u: every other registered
   * client gets the message once, and u's own descriptor gets nothing.
   */
  lemma SenderExcluded(s: Slots, k: nat)
    requires Distinct(s) && Occupied(s, k)
    ensures var c := s[k].value;
      && c.connfd !in Recipients(s, AllBut(c.uid))
      && (forall i :: Occupied(s, i) && i != k ==> s[i].value.connfd in Recipients(s, AllBut(c.uid)))
      && (forall i, j :: 0 <= i < j < |Recipients(s, AllBut(c.uid))| ==>
            Recipients(s, AllBut(c.uid))[i] != Recipients(s, AllBut(c.uid))[j])
  {
    var c := s[k].value;
    FanoutMembers(s, AllBut(c.uid), c.connfd);
    forall i | Occupied(s, i) && i != k
      ensures s[i].value.connfd in Recipients(s, AllBut(c.uid))
    {
      FanoutMembers(s, AllBut(c.uid), s[i].value.connfd);
    }
    FanoutNoRepeat(s, AllBut(c.uid));
  }

  /** SendMessageSelf / SendMessageClient to a registered client reach exactly that client once. */
  lemma TargetedReachesOne(s: Slots, k: nat)
    requires Distinct(s) && Occupied(s, k)
    ensures Recipients(s, ToFd(s[k].value.connfd)) == [s[k].value.connfd]
    ensures Recipients(s, ToUid(s[k].value.uid)) == [s[k].value.connfd]
  {
  }

  /** A targeted send to a descriptor or uid nobody holds sends nothing. */
  lemma TargetedAbsent(s: Slots, p: Policy)
    requires p.ToFd? || p.ToUid?
    requires forall i :: Occupied(s, i) ==> !Matches(p, s[i].value)
    ensures Recipients(s, p) == []
  {
  }

  /** Slots whose clients all differ from uid `u` are broadcast to alike by AllBut(u) and All. */
  lemma {:induction false} FanoutAllButAbsent(s: Slots, u: int)
    requires forall i :: Occupied(s, i) ==> s[i].value.uid != u
    ensures Fanout(s, AllBut(u)) == Fanout(s, All)
  {
    if s != [] {
      var init := s[..|s| - 1];
      assert forall i :: 0 <= i < |init| ==> init[i] == s[i];
      FanoutAllButAbsent(init, u);
    }
  }

  /** Filling an empty slot with a client the policy excludes does not change a broadcast. */
  lemma {:induction false} FanoutFillExcluded(s: Slots, k: nat, c: Client, p: Policy)
    requires k < |s| && s[k].None? && !Matches(p, c)
    ensures Fanout(s[k := Some(c)], p) == Fanout(s, p)
  {
    var t := s[k := Some(c)];
    var init := s[..|s| - 1];
    if k < |s| - 1 {
      assert t[..|t| - 1] == init[k := Some(c)];
      assert t[|t| - 1] == s[|s| - 1];
      FanoutFillExcluded(init, k, c, p);
    } else {
      assert t[..|t| - 1] == init;
      assert Fanout(t, p) == Fanout(init, p);
      assert Fanout(s, p) == Fanout(init, p);
    }
  }

  /** Emptying the slot of a client the policy excludes does not change a broadcast. */
  lemma {:induction false} FanoutClearExcluded(s: Slots, k: nat, p: Policy)
    requires k < |s| && s[k].Some? && !Matches(p, s[k].value)
    ensures Fanout(s[k := None], p) == Fanout(s, p)
  {
    var t := s[k := None];
    var init := s[..|s| - 1];
    if k < |s| - 1 {
      assert t[..|t| - 1] == init[k := None];
      assert t[|t| - 1] == s[|s| - 1];
      FanoutClearExcluded(init, k, p);
    } else {
      assert t[..|t| - 1] == init;
      assert Fanout(t, p) == Fanout(init, p);
      assert Fanout(s, p) == Fanout(init, p);
    }
  }

  /**
   * The CONNECT_OTHER notice, sent with AllBut(new uid) after the new client
   * was added, reaches exactly the clients registered before it, in slot order.
   */
  lemma ConnectOtherRecipients(s: Slots, c: Client)
    requires UidsBelow(s, c.uid)
    ensures Recipients(Added(s, c), AllBut(c.uid)) == Fanout(s, All)
  {
    FanoutAllButAbsent(s, c.uid);
    if FirstFree(s) < |s| {
      FanoutFillExcluded(s, FirstFree(s), c, AllBut(c.uid));
    }
  }

  /**
   * The DISCONNECT notice, sent with AllBut(uid) before the client leaves,
   * reaches exactly the clients that remain registered after it, in slot order.
   */
  lemma DisconnectRecipients(s: Slots, u: int)
    requires Distinct(s)
    ensures Recipients(s, AllBut(u)) == Fanout(Deleted(s, u), All)
  {
    var t := Deleted(s, u);
    DeleteIdempotent(s, u);
    FanoutAllButAbsent(t, u);
    var k := FirstMatch(s, ToUid(u));
    if k < |s| {
      FanoutClearExcluded(s, k, AllBut(u));
    }
  }
}
