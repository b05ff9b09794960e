/** The relay state of udpmask.c and the table and watch-set bookkeeping that start() does on it.
    Sockets are plain descriptor numbers; receiving, sending, select(), socket() and the clock are
    inputs, and the payload transform is a function parameter. */
module Relay {
  import opened SockAddr
  import opened PeerTable

  type Bytes = seq<bv8>

  /** What a successful recvfrom() or recv() delivers: it returned more than zero bytes. A read
      that returned zero (an empty datagram) or an error is NoDatagram / NoData. */
  type Payload = b: Bytes | |b| > 0 witness [0]

  /** A datagram the relay hands to the network. */
  datatype Outgoing =
    | ToUpstream(sock: int, data: Bytes)               // send() on a connected forwarding socket
    | ToPeer(via: int, dest: SockAddrIn, data: Bytes)  // sendto() on the listening socket

  /** What recv() on one ready forwarding socket gave (NoData: it returned <= 0), with the clock
      reading UPDATE_LAST_USE then takes. */
  datatype PeerRead = NoData | Data(payload: Payload, now: int)

  /** What recvfrom() on the ready listening socket gave (NoDatagram: it returned <= 0), with the
      descriptor NEW_SOCK() would return (negative on failure) and the two clock readings of the
      listener path: the sweep's and UPDATE_LAST_USE's. */
  datatype ListenerRead =
    | NoDatagram
    | Datagram(from: SockAddrIn, payload: Payload, newSock: int, cleanNow: int, touchNow: int)

  /** How select() returned in one pass of the main loop, and what the pass then reads: the
      listening socket, the forwarding socket of each slot (by slot index), and the clock of the
      closing sweep. */
  datatype Wakeup =
    | SelectFailed
    | Ready(ready: set<int>, listener: ListenerRead, peers: seq<PeerRead>, sweepNow: int)

  function ReadAt(recvs: seq<PeerRead>, i: int): PeerRead
  {
    if 0 <= i < |recvs| then recvs[i] else NoData
  }

  /** The slot's forwarding socket is live and select() reported it readable. */
  predicate Readable(e: Entry, ready: set<int>)
  {
    e.inUse && e.sock in ready
  }

  function PeerTouchedEntry(e: Entry, ready: set<int>, r: PeerRead): Entry
  {
    if Readable(e, ready) && r.Data? then TouchEntry(e, r.now) else e
  }

  /** The table after the peer loop of start(): every readable slot that received data is touched. */
  function PeersTouched(t: Table, ready: set<int>, recvs: seq<PeerRead>): Table
  {
    seq(|t|, k requires 0 <= k < |t| => PeerTouchedEntry(t[k], ready, ReadAt(recvs, k)))
  }

  /** The replies the peer loop sends, over slots 0 .. n-1, in slot order. */
  function Replies(bind: int, t: Table, ready: set<int>, recvs: seq<PeerRead>,
                   transform: Bytes -> Bytes, n: nat): seq<Outgoing>
    requires n <= |t|
  {
    if n == 0 then []
    else
      var r := ReadAt(recvs, n - 1);
      Replies(bind, t, ready, recvs, transform, n - 1) +
        (if Readable(t[n - 1], ready) && r.Data? then [ToPeer(bind, t[n - 1].from, transform(r.payload))]
         else [])
  }

  /** Every reply leaves through the listening socket towards the address of a live flow whose
      socket was readable and received data, and there are no more replies than slots. */
  lemma {:induction false} RepliesGoToReadablePeers(bind: int, t: Table, ready: set<int>,
      recvs: seq<PeerRead>, transform: Bytes -> Bytes, n: nat)
    requires n <= |t|
    ensures |Replies(bind, t, ready, recvs, transform, n)| <= n
    ensures forall o :: o in Replies(bind, t, ready, recvs, transform, n) ==>
      o.ToPeer? && o.via == bind &&
      exists k :: 0 <= k < n && Readable(t[k], ready) && ReadAt(recvs, k).Data? && t[k].from == o.dest
  {
    if n > 0 {
      RepliesGoToReadablePeers(bind, t, ready, recvs, transform, n - 1);
    }
  }

  /** The slots below n whose socket was readable and received data. */
  ghost function AnsweredSlots(t: Table, ready: set<int>, recvs: seq<PeerRead>, n: nat): set<int>
  {
    set k | 0 <= k < n && k < |t| && Readable(t[k], ready) && ReadAt(recvs, k).Data?
  }

  /** The converse: each slot that was readable and received data gets its own reply, the
      transformed payload sent to its peer. */
  lemma {:induction false} ReadablePeersGetReplies(bind: int, t: Table, ready: set<int>,
      recvs: seq<PeerRead>, transform: Bytes -> Bytes, n: nat)
    requires n <= |t|
    ensures forall k :: 0 <= k < n && Readable(t[k], ready) && ReadAt(recvs, k).Data? ==>
      ToPeer(bind, t[k].from, transform(ReadAt(recvs, k).payload)) in Replies(bind, t, ready, recvs, transform, n)
  {
    if n > 0 {
      ReadablePeersGetReplies(bind, t, ready, recvs, transform, n - 1);
    }
  }

  /** One reply per answered slot: there are exactly as many replies as slots that were
      readable and received data. */
  lemma {:induction false} RepliesOnePerSlot(bind: int, t: Table, ready: set<int>,
      recvs: seq<PeerRead>, transform: Bytes -> Bytes, n: nat)
    requires n <= |t|
    ensures |Replies(bind, t, ready, recvs, transform, n)| == |AnsweredSlots(t, ready, recvs, n)|
  {
    if n > 0 {
      RepliesOnePerSlot(bind, t, ready, recvs, transform, n - 1);
      AnsweredSlotsStep(t, ready, recvs, n);
    }
  }

  lemma AnsweredSlotsStep(t: Table, ready: set<int>, recvs: seq<PeerRead>, n: nat)
    requires 0 < n <= |t|
    ensures n - 1 !in AnsweredSlots(t, ready, recvs, n - 1)
    ensures AnsweredSlots(t, ready, recvs, n) == AnsweredSlots(t, ready, recvs, n - 1) +
      (if Readable(t[n - 1], ready) && ReadAt(recvs, n - 1).Data? then {n - 1} else {})
  {
  }

  /** The listener path admits (and so sweeps) exactly for a peer without a flow, once socket()
      has succeeded. */
  predicate Admits(t: Table, from: SockAddrIn, newSock: int)
  {
    Find(t, from) < 0 && newSock >= 0
  }

  /** The table after the listener path handled one datagram from `from`: a known flow is
      touched; an unknown peer, when socket() succeeded, is inserted into the first free slot of
      the swept table and touched, and otherwise dropped. */
  function AfterDatagram(t: Table, timeout: int, from: SockAddrIn, newSock: int, cleanNow: int,
                         touchNow: int): Table
  {
    var k := Find(t, from);
    if k >= 0 then Touched(t, k, touchNow)
    else if newSock < 0 then t
    else
      var c := Cleaned(t, cleanNow, timeout);
      var j := FirstFree(c);
      if j >= 0 then Touched(Inserted(c, newSock, from), j, touchNow) else c
  }

  /** The send of the listener path: the transformed payload on the flow's socket, when the
      peer has a flow. */
  function Forwarded(t: Table, from: SockAddrIn, payload: Bytes, transform: Bytes -> Bytes): seq<Outgoing>
  {
    var k := Find(t, from);
    if k >= 0 then [ToUpstream(t[k].sock, transform(payload))] else []
  }

  /** After the listener path the sender has a flow exactly when it had one or was admitted into
      a free slot. A known sender keeps its flow and socket; an admitted one has the new socket
      and last_use set to the clock reading, or TIME_INVALID when the clock failed. */
  lemma DatagramReachesFlow(t: Table, timeout: int, from: SockAddrIn, newSock: int, cleanNow: int,
                            touchNow: int)
    ensures var u := AfterDatagram(t, timeout, from, newSock, cleanNow, touchNow);
      var k := Find(u, from);
      && |u| == |t|
      && (k >= 0 <==> Find(t, from) >= 0 || (newSock >= 0 && FirstFree(Cleaned(t, cleanNow, timeout)) >= 0))
      && (Find(t, from) >= 0 ==> k == Find(t, from) && u[k].sock == t[k].sock)
      && (Find(t, from) < 0 && k >= 0 ==>
            && k == FirstFree(Cleaned(t, cleanNow, timeout))
            && u[k].sock == newSock && u[k].lastUse == TouchEntry(NewEntry(newSock, from), touchNow).lastUse)
  {
    var k := Find(t, from);
    if k >= 0 {
      var u := Touched(t, k, touchNow);
      assert SameFlows(t, u);
      SameFlowsAgree(0, t, u, from);
    } else if newSock >= 0 {
      var c := Cleaned(t, cleanNow, timeout);
      CleanedExactlyStale(t, cleanNow, timeout);
      assert forall m :: 0 <= m < |c| && Tracks(c[m], from) ==> Tracks(t[m], from);
      FindAfterInsert(c, newSock, from);
      var j := FirstFree(c);
      if j >= 0 {
        var ins := Inserted(c, newSock, from);
        var u := Touched(ins, j, touchNow);
        assert SameFlows(ins, u);
        SameFlowsAgree(0, ins, u, from);
      }
    }
  }

  /** The pass reads a datagram on the listening socket. */
  predicate Heard(bind: int, w: Wakeup)
  {
    w.Ready? && bind in w.ready && w.listener.Datagram?
  }

  /** The listener path of the pass ran the admit path, and with it a sweep. */
  predicate ListenerSwept(bind: int, t: Table, w: Wakeup)
  {
    Heard(bind, w) && Admits(t, w.listener.from, w.listener.newSock)
  }

  /** The table after the listener part of a pass. */
  function ListenerTable(bind: int, timeout: int, t: Table, w: Wakeup): Table
  {
    if Heard(bind, w) then
      var d := w.listener;
      AfterDatagram(t, timeout, d.from, d.newSock, d.cleanNow, d.touchNow)
    else t
  }

  /** The sockets the listener part of a pass closes in its sweep. */
  function ListenerEvicted(bind: int, timeout: int, t: Table, w: Wakeup): set<int>
  {
    if ListenerSwept(bind, t, w) then EvictedSocks(t, w.listener.cleanNow, timeout) else {}
  }

  /** The socket the listener part of a pass starts watching: the new peer's, when it found a
      free slot. */
  function ListenerWatched(bind: int, timeout: int, t: Table, w: Wakeup): set<int>
  {
    if ListenerSwept(bind, t, w) && FirstFree(Cleaned(t, w.listener.cleanNow, timeout)) >= 0
    then {w.listener.newSock} else {}
  }

  /** The socket the listener part of a pass leaves open: the new peer's whenever socket()
      succeeded, or only when it was inserted if the dropped socket is closed. */
  function ListenerOpened(bind: int, timeout: int, t: Table, w: Wakeup, closeDropped: bool): set<int>
  {
    if ListenerSwept(bind, t, w) && !closeDropped then {w.listener.newSock}
    else ListenerWatched(bind, timeout, t, w)
  }

  /** What the listener part of a pass sends, given the table after it. */
  function ListenerSent(bind: int, l: Table, w: Wakeup, transform: Bytes -> Bytes): seq<Outgoing>
  {
    if Heard(bind, w) then Forwarded(l, w.listener.from, w.listener.payload, transform) else []
  }

  class Relay {
    /** The listening socket (bind_sock). */
    const bindSock: int
    /** Idle timeout in seconds; non-positive disables eviction. */
    const timeout: int
    /** The peer table (map). */
    const sockmap: array<Entry>
    /** The descriptor ceiling passed to select() (sock_fd_max). */
    var sockFdMax: int
    /** The descriptors select() watches (active_fd_set). */
    var activeSet: set<int>
    /** The descriptors this process holds open: socket() adds one, close() removes one. */
    var openFds: set<int>
    /** How many times um_sockmap_clean has run. */
    ghost var sweeps: nat

    /** The bookkeeping start() keeps between loop passes: the watch set is the listening socket
        plus every live forwarding socket, the ceiling is its maximum, live sockets are distinct
        open descriptors, and no peer has two live entries. */
    ghost predicate Valid()
      reads this, sockmap
    {
      && 0 <= bindSock
      && SocksOk(bindSock, sockmap[..])
      && UniqueAddrs(sockmap[..])
      && sockFdMax == MaxSock(bindSock, sockmap[..])
      && activeSet == Watched(bindSock, sockmap[..])
      && activeSet <= openFds
    }

    /** Every descriptor the process holds open is one the relay still watches. */
    ghost predicate NoLeak()
      reads this
    {
      openFds == activeSet
    }

    /** The state start() begins with: main() zeroed the table and bound the listening socket;
        start() puts that socket alone in the watch set and computes the ceiling. */
    constructor (capacity: nat, bindSock: int, timeout: int)
      requires 0 <= bindSock
      ensures Valid() && NoLeak()
      ensures this.bindSock == bindSock && this.timeout == timeout
      ensures fresh(sockmap) && sockmap.Length == capacity
      ensures forall k :: 0 <= k < capacity ==> sockmap[k] == ZEROED
      ensures activeSet == {bindSock} && sockFdMax == bindSock && sweeps == 0
    {
      this.bindSock := bindSock;
      this.timeout := timeout;
      sockmap := new Entry[capacity](_ => ZEROED);
      sockFdMax := -1;
      activeSet := {bindSock};
      openFds := {bindSock};
      sweeps := 0;
      new;
      UpdateSockFdMax();
      assert InUseSocks(sockmap[..]) == {};
      MaxSockIsMax(bindSock, sockmap[..]);
    }

    /** update_sock_fd_max: rescans the table for the largest watched descriptor. */
    method UpdateSockFdMax()
      modifies this`sockFdMax
      ensures sockFdMax == MaxSock(bindSock, sockmap[..])
    {
      sockFdMax := bindSock;
      var i := 0;
      while i < sockmap.Length
        invariant 0 <= i <= sockmap.Length
        invariant sockFdMax == MaxSock(bindSock, sockmap[..i])
      {
        assert sockmap[..i + 1][..i] == sockmap[..i];
        if sockmap[i].inUse && sockmap[i].sock > sockFdMax {
          sockFdMax := sockmap[i].sock;
        }
        i := i + 1;
      }
      assert sockmap[..i] == sockmap[..];
    }

    /** UPDATE_SOCK_FD_MAX_ADD: after one descriptor joined the watch set, the cheap increase
        gives the exact new ceiling. */
    method AddSockFdMax(sock: int, ghost before: Table)
      requires sockFdMax == MaxSock(bindSock, before)
      requires Watched(bindSock, sockmap[..]) == Watched(bindSock, before) + {sock}
      modifies this`sockFdMax
      ensures sockFdMax == MaxSock(bindSock, sockmap[..])
    {
      MaxSockAdd(bindSock, before, sockmap[..], sock);
      if sock > sockFdMax {
        sockFdMax := sock;
      }
    }

    /** UPDATE_SOCK_FD_MAX_RM: after one descriptor left the watch set, rescanning only when it
        was at or above the ceiling still gives the exact new ceiling. */
    method RmSockFdMax(sock: int, ghost before: Table)
      requires sockFdMax == MaxSock(bindSock, before)
      requires Watched(bindSock, sockmap[..]) == Watched(bindSock, before) - {sock}
      modifies this`sockFdMax
      ensures sockFdMax == MaxSock(bindSock, sockmap[..])
    {
      if sock >= sockFdMax {
        UpdateSockFdMax();
      } else {
        MaxSockRemove(bindSock, before, sockmap[..], sock);
      }
    }

    /** The lookup loop of start(): the first live slot whose address compares equal to addr. */
    method Lookup(addr: SockAddrIn) returns (idx: int)
      ensures idx == Find(sockmap[..], addr)
    {
      idx := -1;
      var i := 0;
      while i < sockmap.Length
        invariant 0 <= i <= sockmap.Length
        invariant forall k :: 0 <= k < i ==> !Tracks(sockmap[k], addr)
      {
        if sockmap[i].inUse && Cmp(addr, sockmap[i].from) == 0 {
          idx := i;
          break;
        }
        i := i + 1;
      }
    }

    /** um_sockmap_ins: claims the first free slot for (sock, addr) and returns its index, or
        returns -1 when every slot is in use. */
    method Ins(sock: int, addr: SockAddrIn) returns (idx: int)
      modifies sockmap
      ensures idx == FirstFree(old(sockmap[..]))
      ensures sockmap[..] == Inserted(old(sockmap[..]), sock, addr)
    {
      var i := 0;
      while i < sockmap.Length
        invariant 0 <= i <= sockmap.Length
        invariant forall k :: 0 <= k < i ==> sockmap[k].inUse
        invariant sockmap[..] == old(sockmap[..])
      {
        if !sockmap[i].inUse {
          sockmap[i] := NewEntry(sock, addr);
          break;
        }
        i := i + 1;
      }
      if i >= sockmap.Length {
        return -1;
      }
      return i;
    }

    /** UPDATE_LAST_USE: records the clock reading as the slot's last activity, unless the clock
        could not be read. */
    method Touch(i: int, now: int)
      requires Valid()
      requires 0 <= i < sockmap.Length
      modifies sockmap
      ensures Valid()
      ensures sockmap[..] == Touched(old(sockmap[..]), i, now)
      ensures SameFlows(old(sockmap[..]), sockmap[..])
    {
      if now != TimeInvalid {
        sockmap[i] := sockmap[i].(lastUse := now);
      }
      SameFlowsAgree(bindSock, old(sockmap[..]), sockmap[..], sockmap[i].from);
    }

    /** The eviction of one stale slot inside um_sockmap_clean: clear in_use, close the socket,
        FD_CLR it and keep the ceiling exact with UPDATE_SOCK_FD_MAX_RM. */
    method Evict(i: int)
      requires Valid()
      requires 0 <= i < sockmap.Length && sockmap[i].inUse
      modifies this, sockmap
      ensures Valid()
      ensures sockmap[..] == old(sockmap[..])[i := old(sockmap[i]).(inUse := false)]
      ensures activeSet == old(activeSet) - {old(sockmap[i].sock)}
      ensures openFds == old(openFds) - {old(sockmap[i].sock)}
      ensures sweeps == old(sweeps)
    {
      ghost var before := sockmap[..];
      EvictKeepsInvariants(bindSock, before, i);
      WatchedAfterEvict(bindSock, before, i);
      sockmap[i] := sockmap[i].(inUse := false);
      openFds := openFds - {sockmap[i].sock};      // close()
      activeSet := activeSet - {sockmap[i].sock};  // FD_CLR
      RmSockFdMax(sockmap[i].sock, before);
    }

    /** um_sockmap_clean: evicts every stale live entry, closing its socket, dropping it from the
        watch set and keeping the ceiling exact; reports 1 when it evicted anything. */
    method Clean(now: int) returns (purged: int)
      requires Valid()
      modifies this, sockmap
      ensures Valid()
      ensures sockmap[..] == Cleaned(old(sockmap[..]), now, timeout)
      ensures purged == if Purged(old(sockmap[..]), now, timeout) then 1 else 0
      ensures EvictedSocks(old(sockmap[..]), now, timeout) <= old(activeSet)
      ensures activeSet == old(activeSet) - EvictedSocks(old(sockmap[..]), now, timeout)
      ensures openFds == old(openFds) - EvictedSocks(old(sockmap[..]), now, timeout)
      ensures old(NoLeak()) ==> NoLeak()
      ensures timeout <= 0 ==>
        && purged == 0 && sockmap[..] == old(sockmap[..])
        && activeSet == old(activeSet) && openFds == old(openFds) && sockFdMax == old(sockFdMax)
      ensures sweeps == old(sweeps) + 1
    {
      sweeps := sweeps + 1;
      purged := 0;
      ghost var t0 := sockmap[..];
      if timeout <= 0 {
        WatchedAfterClean(bindSock, t0, now, timeout);
        return;
      }
      SweptUpToStart(t0, now, timeout);
      ghost var closed: set<int> := {};
      var i := 0;
      while i < sockmap.Length
        invariant 0 <= i <= sockmap.Length
        invariant Valid()
        invariant sockmap[..] == SweptUpTo(t0, i, now, timeout)
        invariant closed <= old(activeSet)
        invariant activeSet == old(activeSet) - closed
        invariant openFds == old(openFds) - closed
        invariant purged == if StaleBelow(t0, i, now, timeout) then 1 else 0
        invariant sweeps == old(sweeps) + 1
      {
        SweptUpToStep(t0, i, now, timeout);
        ghost var prev := sockmap[..];
        assert prev[i] == t0[i];
        if sockmap[i].inUse &&
           (sockmap[i].lastUse == TimeInvalid || now - sockmap[i].lastUse >= timeout)
        {
          ghost var s := sockmap[i].sock;
          Evict(i);
          closed := closed + {s};
          assert sockmap[..] == prev[i := Swept(t0[i], now, timeout)];
          if purged == 0 {
            purged := 1;
          }
        } else {
          assert prev[i := Swept(t0[i], now, timeout)] == prev;
        }
        i := i + 1;
      }
      SweptUpToEnd(t0, now, timeout);
      WatchedAfterClean(bindSock, t0, now, timeout);
    }

    /** The admit path of start() for a peer the lookup did not find: ask for a new socket; if
        that succeeds, sweep, then try to insert; on success watch the socket and raise the
        ceiling. When the table is full the new socket is left open, as the source does. */
    method AdmitNewPeer(from: SockAddrIn, newSock: int, cleanNow: int) returns (idx: int, cleaned: bool)
      requires Valid()
      requires Find(sockmap[..], from) == -1
      requires newSock >= 0 ==> newSock !in openFds
      modifies this, sockmap
      ensures Valid()
      ensures idx == Find(sockmap[..], from)
      ensures newSock < 0 ==>
        && idx == -1 && !cleaned
        && sockmap[..] == old(sockmap[..])
        && activeSet == old(activeSet) && openFds == old(openFds) && sweeps == old(sweeps)
      ensures newSock >= 0 ==>
        var c := Cleaned(old(sockmap[..]), cleanNow, timeout);
        var ev := EvictedSocks(old(sockmap[..]), cleanNow, timeout);
        && cleaned && sweeps == old(sweeps) + 1
        && idx == FirstFree(c)
        && sockmap[..] == Inserted(c, newSock, from)
        && activeSet == old(activeSet) - ev + (if idx >= 0 then {newSock} else {})
        && openFds == old(openFds) - ev + {newSock}
    {
      idx, cleaned := -1, false;
      if newSock < 0 {
        return;  // socket() failed: logged, packet dropped
      }
      openFds := openFds + {newSock};
      ghost var t0 := sockmap[..];
      var _ := Clean(cleanNow);
      cleaned := true;
      CleanedExactlyStale(t0, cleanNow, timeout);
      assert Find(sockmap[..], from) == -1;
      idx := Register(newSock, from);
    }

    /** Records a fresh forwarding socket for a peer the lookup did not find: insert it in the
        first free slot and, when that succeeds, watch it and raise the ceiling. On a full table
        nothing changes (and the caller keeps the socket open). */
    method Register(sock: int, from: SockAddrIn) returns (idx: int)
      requires Valid()
      requires Find(sockmap[..], from) == -1
      requires 0 <= sock && sock in openFds && sock !in activeSet
      modifies this, sockmap
      ensures Valid()
      ensures idx == FirstFree(old(sockmap[..])) && idx == Find(sockmap[..], from)
      ensures sockmap[..] == Inserted(old(sockmap[..]), sock, from)
      ensures activeSet == old(activeSet) + (if idx >= 0 then {sock} else {})
      ensures openFds == old(openFds) && sweeps == old(sweeps)
    {
      ghost var c := sockmap[..];
      assert sock !in Watched(bindSock, c);
      InsertKeepsInvariants(bindSock, c, sock, from);
      idx := Ins(sock, from);
      if idx >= 0 {
        activeSet := activeSet + {sock};  // FD_SET; connect() is not modelled
        WatchedAfterInsert(bindSock, c, sock, from);
        AddSockFdMax(sock, c);
      }
    }

    /** The admit path with the socket of a dropped peer closed: the new socket stays open
        exactly when it was inserted, so nothing the process holds open is left unwatched. */
    method AdmitNewPeerClosingDrop(from: SockAddrIn, newSock: int, cleanNow: int)
      returns (idx: int, cleaned: bool)
      requires Valid()
      requires Find(sockmap[..], from) == -1
      requires newSock >= 0 ==> newSock !in openFds
      modifies this, sockmap
      ensures Valid()
      ensures idx == Find(sockmap[..], from)
      ensures old(NoLeak()) ==> NoLeak()
      ensures newSock < 0 ==>
        && idx == -1 && !cleaned
        && sockmap[..] == old(sockmap[..])
        && activeSet == old(activeSet) && openFds == old(openFds) && sweeps == old(sweeps)
      ensures newSock >= 0 ==>
        var c := Cleaned(old(sockmap[..]), cleanNow, timeout);
        var ev := EvictedSocks(old(sockmap[..]), cleanNow, timeout);
        && cleaned && sweeps == old(sweeps) + 1
        && idx == FirstFree(c)
        && sockmap[..] == Inserted(c, newSock, from)
        && activeSet == old(activeSet) - ev + (if idx >= 0 then {newSock} else {})
        && openFds == old(openFds) - ev + (if idx >= 0 then {newSock} else {})
    {
      idx, cleaned := AdmitNewPeer(from, newSock, cleanNow);
      if newSock >= 0 && idx < 0 {
        openFds := openFds - {newSock};  // close(tmp_sock)
      }
    }

    /** One datagram from peer `from` on the listening socket: find its flow or admit it, then
        forward the transformed payload on the flow's socket and touch the flow (after the send).
        With closeDropped false this is the code as written: a peer dropped for lack of room
        leaves its new socket open. With closeDropped true the socket is closed. */
    method OnListenerPacket(from: SockAddrIn, payload: Payload, newSock: int, cleanNow: int,
                            touchNow: int, transform: Bytes -> Bytes, closeDropped: bool)
      returns (cleaned: bool, sent: seq<Outgoing>)
      requires Valid()
      requires newSock >= 0 ==> newSock !in openFds
      modifies this, sockmap
      ensures Valid()
      ensures sockmap[..] == AfterDatagram(old(sockmap[..]), timeout, from, newSock, cleanNow, touchNow)
      ensures sent == Forwarded(sockmap[..], from, payload, transform)
      ensures cleaned == Admits(old(sockmap[..]), from, newSock)
      ensures sweeps == old(sweeps) + (if cleaned then 1 else 0)
      ensures !cleaned ==> activeSet == old(activeSet) && openFds == old(openFds)
      ensures cleaned ==>
        var ev := EvictedSocks(old(sockmap[..]), cleanNow, timeout);
        var admitted := FirstFree(Cleaned(old(sockmap[..]), cleanNow, timeout)) >= 0;
        && activeSet == old(activeSet) - ev + (if admitted then {newSock} else {})
        && openFds == old(openFds) - ev + (if admitted || !closeDropped then {newSock} else {})
      ensures closeDropped && old(NoLeak()) ==> NoLeak()
    {
      cleaned := false;
      var sockIdx := Lookup(from);
      if sockIdx < 0 {
        if closeDropped {
          sockIdx, cleaned := AdmitNewPeerClosingDrop(from, newSock, cleanNow);
        } else {
          sockIdx, cleaned := AdmitNewPeer(from, newSock, cleanNow);
        }
      }
      sent := [];
      if sockIdx >= 0 {
        sent := [ToUpstream(sockmap[sockIdx].sock, transform(payload))];  // transform + send()
        ghost var t1 := sockmap[..];
        Touch(sockIdx, touchNow);
        SameFlowsAgree(bindSock, t1, sockmap[..], from);
      }
    }

    /** One datagram on slot i's forwarding socket: touch the flow first, then send the
        transformed payload back to the flow's peer through the listening socket. */
    method OnPeerPacket(i: int, payload: Payload, now: int, transform: Bytes -> Bytes)
      returns (reply: Outgoing)
      requires Valid()
      requires 0 <= i < sockmap.Length && sockmap[i].inUse
      modifies sockmap
      ensures Valid()
      ensures sockmap[..] == Touched(old(sockmap[..]), i, now)
      ensures reply == ToPeer(bindSock, old(sockmap[i].from), transform(payload))
    {
      Touch(i, now);
      reply := ToPeer(bindSock, sockmap[i].from, transform(payload));  // transform + sendto()
    }

    /** The peer loop of start(): every live slot whose socket select() reported readable, in
        slot order. */
    method DrainPeers(ready: set<int>, recvs: seq<PeerRead>, transform: Bytes -> Bytes)
      returns (sent: seq<Outgoing>)
      requires Valid()
      modifies sockmap
      ensures Valid()
      ensures sockmap[..] == PeersTouched(old(sockmap[..]), ready, recvs)
      ensures sent == Replies(bindSock, old(sockmap[..]), ready, recvs, transform, sockmap.Length)
    {
      sent := [];
      ghost var t0 := sockmap[..];
      var i := 0;
      while i < sockmap.Length
        invariant 0 <= i <= sockmap.Length
        invariant Valid()
        invariant forall k :: 0 <= k < i ==> sockmap[k] == PeerTouchedEntry(t0[k], ready, ReadAt(recvs, k))
        invariant forall k :: i <= k < sockmap.Length ==> sockmap[k] == t0[k]
        invariant sent == Replies(bindSock, t0, ready, recvs, transform, i)
      {
        if sockmap[i].inUse && sockmap[i].sock in ready {
          var r := ReadAt(recvs, i);  // recv()
          if r.Data? {
            var out := OnPeerPacket(i, r.payload, r.now, transform);
            sent := sent + [out];
          }
        }
        i := i + 1;
      }
      assert sockmap[..] == PeersTouched(t0, ready, recvs);
    }

    /** The listening-socket block of a pass: when select() reported the listening socket and
        recvfrom() delivered a datagram, handle it on the listener path; otherwise do nothing. */
    method Listen(w: Wakeup, transform: Bytes -> Bytes, closeDropped: bool)
      returns (swept: bool, sent: seq<Outgoing>)
      requires Valid()
      requires Heard(bindSock, w) && w.listener.newSock >= 0 ==> w.listener.newSock !in openFds
      modifies this, sockmap
      ensures Valid()
      ensures swept == ListenerSwept(bindSock, old(sockmap[..]), w)
      ensures sockmap[..] == ListenerTable(bindSock, timeout, old(sockmap[..]), w)
      ensures sent == ListenerSent(bindSock, sockmap[..], w, transform)
      ensures activeSet ==
        old(activeSet) - ListenerEvicted(bindSock, timeout, old(sockmap[..]), w)
                       + ListenerWatched(bindSock, timeout, old(sockmap[..]), w)
      ensures openFds ==
        old(openFds) - ListenerEvicted(bindSock, timeout, old(sockmap[..]), w)
                     + ListenerOpened(bindSock, timeout, old(sockmap[..]), w, closeDropped)
      ensures sweeps == old(sweeps) + (if swept then 1 else 0)
      ensures closeDropped && old(NoLeak()) ==> NoLeak()
    {
      swept, sent := false, [];
      if w.Ready? && bindSock in w.ready && w.listener.Datagram? {
        var d := w.listener;
        swept, sent :=
          OnListenerPacket(d.from, d.payload, d.newSock, d.cleanNow, d.touchNow, transform, closeDropped);
      }
    }

    /** One pass of the main loop: drain the listening socket, then the ready forwarding
        sockets, then sweep unless the listener path already swept. A failed select() does
        nothing at all. closeDropped is passed to the listener path; false is the code as
        written. */
    method Iteration(w: Wakeup, transform: Bytes -> Bytes, closeDropped: bool) returns (sent: seq<Outgoing>)
      requires Valid()
      requires w.Ready? ==> w.ready <= activeSet
      requires Heard(bindSock, w) && w.listener.newSock >= 0 ==> w.listener.newSock !in openFds
      modifies this, sockmap
      ensures Valid()
      ensures sweeps == old(sweeps) + (if w.Ready? then 1 else 0)
      ensures w.SelectFailed? ==>
        && sent == [] && sockmap[..] == old(sockmap[..])
        && activeSet == old(activeSet) && openFds == old(openFds) && sockFdMax == old(sockFdMax)
      ensures w.Ready? ==>
        var t0 := old(sockmap[..]);
        var swept := ListenerSwept(bindSock, t0, w);
        var l := ListenerTable(bindSock, timeout, t0, w);
        var p := PeersTouched(l, w.ready, w.peers);
        var ev := ListenerEvicted(bindSock, timeout, t0, w);
        var late := if swept then {} else EvictedSocks(p, w.sweepNow, timeout);
        && sockmap[..] == (if swept then p else Cleaned(p, w.sweepNow, timeout))
        && sent == ListenerSent(bindSock, l, w, transform) + Replies(bindSock, l, w.ready, w.peers, transform, |l|)
        && activeSet == old(activeSet) - ev + ListenerWatched(bindSock, timeout, t0, w) - late
        && openFds == old(openFds) - ev + ListenerOpened(bindSock, timeout, t0, w, closeDropped) - late
      ensures closeDropped && old(NoLeak()) ==> NoLeak()
    {
      sent := [];
      if w.SelectFailed? {
        return;  // select() <= 0: try again
      }
      var cleanUpTrigged;
      cleanUpTrigged, sent := Listen(w, transform, closeDropped);
      var replies := DrainPeers(w.ready, w.peers, transform);
      sent := sent + replies;
      if !cleanUpTrigged {
        var _ := Clean(w.sweepNow);
      }
    }

    /** The clean-up after the loop: every live slot is released and its socket closed. */
    method Shutdown()
      modifies this, sockmap
      ensures forall k :: 0 <= k < sockmap.Length ==> sockmap[k] == old(sockmap[k]).(inUse := false)
      ensures openFds == old(openFds) - InUseSocks(old(sockmap[..]))
      ensures old(Valid() && NoLeak()) ==> openFds == {bindSock}
      ensures activeSet == old(activeSet) && sockFdMax == old(sockFdMax) && sweeps == old(sweeps)
    {
      ghost var t0 := sockmap[..];
      var i := 0;
      while i < sockmap.Length
        invariant 0 <= i <= sockmap.Length
        invariant forall k :: 0 <= k < i ==> sockmap[k] == t0[k].(inUse := false)
        invariant forall k :: i <= k < sockmap.Length ==> sockmap[k] == t0[k]
        invariant openFds == old(openFds) - InUseSocks(t0[..i])
        invariant activeSet == old(activeSet) && sockFdMax == old(sockFdMax) && sweeps == old(sweeps)
      {
        InUseSocksSnoc(t0[..i + 1]);
        assert t0[..i + 1][..i] == t0[..i];
        if sockmap[i].inUse {
          sockmap[i] := sockmap[i].(inUse := false);
          openFds := openFds - {sockmap[i].sock};  // close()
        }
        i := i + 1;
      }
      assert t0[..i] == t0;
    }
  }

  /** A concrete run of the listener path as written: one slot, eviction disabled, listening
      socket 3. Peer a gets socket 4; peer b is dropped for lack of room, and its socket 5 stays
      open while nothing watches or tracks it. */
  method DroppedPeerKeepsSocketOpen() returns (leaked: set<int>)
    ensures leaked == {5}
  {
    var relay := new Relay(1, 3, 0);
    var a := SockAddrIn(2, 1000, 0x0A00_0001);
    var b := SockAddrIn(2, 1001, 0x0A00_0001);
    var _, _ := relay.OnListenerPacket(a, [1], 4, 100, 100, x => x, false);
    var _, _ := relay.OnListenerPacket(b, [1], 5, 101, 101, x => x, false);
    leaked := relay.openFds - relay.activeSet;
  }
}
