/** The peer table (map[UM_MAX_CLIENT] of struct um_sockmap) as a value, with the functions that
    say what each table operation of udpmask.c does to it and the lemmas that keep the relay's
    bookkeeping (watch set, descriptor ceiling, address uniqueness) consistent with it. */
module PeerTable {
  import opened SockAddr

  /** (time_t) -1: what time(NULL) returns when the clock cannot be read. An entry whose
      last_use holds it has not yet been confirmed active. */
  const TimeInvalid: int := -1

  /** struct um_sockmap: slot occupancy, forwarding socket, time of last activity, peer address. */
  datatype Entry = Entry(inUse: bool, sock: int, lastUse: int, from: SockAddrIn)

  /** A slot as main() leaves it after memset(map, 0, sizeof(map)). */
  const ZEROED: Entry := Entry(false, 0, 0, SockAddrIn(0, 0, 0))

  type Table = seq<Entry>

  /** The entry is the live flow of the peer at addr. */
  predicate Tracks(e: Entry, addr: SockAddrIn)
  {
    e.inUse && e.from == addr
  }

  /** The lookup loop of start(): the first in-use slot whose address equals addr, or -1. */
  function Find(t: Table, addr: SockAddrIn): (r: int)
    ensures -1 <= r < |t|
    ensures r >= 0 ==> Tracks(t[r], addr)
    ensures r >= 0 ==> forall k :: 0 <= k < r ==> !Tracks(t[k], addr)
    ensures r == -1 <==> forall k :: 0 <= k < |t| ==> !Tracks(t[k], addr)
  {
    if |t| == 0 then -1
    else if Tracks(t[0], addr) then 0
    else
      var r := Find(t[1..], addr);
      assert forall k :: 1 <= k < |t| ==> t[k] == t[1..][k - 1];
      if r < 0 then -1 else r + 1
  }

  /** The slot um_sockmap_ins picks: the lowest-index free slot, or -1 when every slot is in use. */
  function FirstFree(t: Table): (r: int)
    ensures -1 <= r < |t|
    ensures r >= 0 ==> !t[r].inUse
    ensures r >= 0 ==> forall k :: 0 <= k < r ==> t[k].inUse
    ensures r == -1 <==> forall k :: 0 <= k < |t| ==> t[k].inUse
  {
    if |t| == 0 then -1
    else if !t[0].inUse then 0
    else
      var r := FirstFree(t[1..]);
      assert forall k :: 1 <= k < |t| ==> t[k] == t[1..][k - 1];
      if r < 0 then -1 else r + 1
  }

  /** The entry um_sockmap_ins writes: in use, the given socket, last_use TIME_INVALID. */
  function NewEntry(sock: int, addr: SockAddrIn): Entry
  {
    Entry(true, sock, TimeInvalid, addr)
  }

  /** The table after um_sockmap_ins(sock, addr). */
  function Inserted(t: Table, sock: int, addr: SockAddrIn): Table
  {
    var k := FirstFree(t);
    if k < 0 then t else t[k := NewEntry(sock, addr)]
  }

  /** UPDATE_LAST_USE on one entry: a failed clock read leaves last_use as it was. */
  function TouchEntry(e: Entry, now: int): Entry
  {
    if now == TimeInvalid then e else e.(lastUse := now)
  }

  function Touched(t: Table, i: int, now: int): Table
    requires 0 <= i < |t|
  {
    t[i := TouchEntry(t[i], now)]
  }

  /** The eviction test of um_sockmap_clean: in use, and never confirmed or idle for at least
      timeout seconds. now is time(NULL) as read by the sweep, unchecked, so it may be TimeInvalid. */
  predicate Stale(e: Entry, now: int, timeout: int)
  {
    e.inUse && (e.lastUse == TimeInvalid || now - e.lastUse >= timeout)
  }

  function Swept(e: Entry, now: int, timeout: int): Entry
  {
    if Stale(e, now, timeout) then e.(inUse := false) else e
  }

  /** The table after um_sockmap_clean; a non-positive timeout disables eviction. */
  function Cleaned(t: Table, now: int, timeout: int): Table
  {
    if timeout <= 0 then t
    else seq(|t|, k requires 0 <= k < |t| => Swept(t[k], now, timeout))
  }

  /** The table part-way through the sweep: slots below i have been swept, the rest not yet. */
  function SweptUpTo(t: Table, i: int, now: int, timeout: int): (r: Table)
    ensures |r| == |t|
  {
    seq(|t|, k requires 0 <= k < |t| => if k < i then Swept(t[k], now, timeout) else t[k])
  }

  /** Some slot below i is stale. */
  predicate StaleBelow(t: Table, i: int, now: int, timeout: int)
  {
    exists k :: 0 <= k < i && k < |t| && Stale(t[k], now, timeout)
  }

  /** One step of the sweep: slot i is swept, the rest stays. */
  lemma SweptUpToStep(t: Table, i: int, now: int, timeout: int)
    requires 0 <= i < |t|
    ensures SweptUpTo(t, i + 1, now, timeout) == SweptUpTo(t, i, now, timeout)[i := Swept(t[i], now, timeout)]
    ensures StaleBelow(t, i + 1, now, timeout) <==> StaleBelow(t, i, now, timeout) || Stale(t[i], now, timeout)
  {
  }

  /** Before the sweep nothing is swept. */
  lemma SweptUpToStart(t: Table, now: int, timeout: int)
    ensures SweptUpTo(t, 0, now, timeout) == t
    ensures !StaleBelow(t, 0, now, timeout)
  {
  }

  /** After the sweep the whole table is swept. */
  lemma SweptUpToEnd(t: Table, now: int, timeout: int)
    requires timeout > 0
    ensures SweptUpTo(t, |t|, now, timeout) == Cleaned(t, now, timeout)
    ensures StaleBelow(t, |t|, now, timeout) <==> Purged(t, now, timeout)
  {
  }

  /** um_sockmap_clean's return value, as a truth value. */
  predicate Purged(t: Table, now: int, timeout: int)
  {
    timeout > 0 && exists k :: 0 <= k < |t| && Stale(t[k], now, timeout)
  }

  /** The forwarding sockets a sweep closes and stops watching. */
  function EvictedSocks(t: Table, now: int, timeout: int): set<int>
  {
    set k | 0 <= k < |t| && timeout > 0 && Stale(t[k], now, timeout) :: t[k].sock
  }

  function InUseSocks(t: Table): set<int>
  {
    set k | 0 <= k < |t| && t[k].inUse :: t[k].sock
  }

  /** What active_fd_set should hold: the listening socket and every live forwarding socket. */
  function Watched(bind: int, t: Table): set<int>
  {
    {bind} + InUseSocks(t)
  }

  /** update_sock_fd_max as a value: the scan in slot order, starting from the listening socket. */
  function MaxSock(bind: int, t: Table): int
  {
    if |t| == 0 then bind
    else
      var m := MaxSock(bind, t[..|t| - 1]);
      var e := t[|t| - 1];
      if e.inUse && e.sock > m then e.sock else m
  }

  /** Slots j and k are not two live slots sharing a socket. */
  ghost predicate SocksApart(t: Table, j: int, k: int)
  {
    0 <= j < |t| && 0 <= k < |t| && j != k && t[j].inUse && t[k].inUse ==> t[j].sock != t[k].sock
  }

  /** Slots j and k are not two live slots of the same peer. */
  ghost predicate AddrsApart(t: Table, j: int, k: int)
  {
    0 <= j < |t| && 0 <= k < |t| && j != k && t[j].inUse && t[k].inUse ==> t[j].from != t[k].from
  }

  /** Live forwarding sockets are valid descriptors, differ from the listening socket and from
      each other (the kernel never hands out a descriptor that is still open). The pairwise part
      is only instantiated for the pairs a proof names. */
  ghost predicate SocksOk(bind: int, t: Table)
  {
    && (forall k :: 0 <= k < |t| && t[k].inUse ==> 0 <= t[k].sock && t[k].sock != bind)
    && (forall j, k {:trigger SocksApart(t, j, k)} :: SocksApart(t, j, k))
  }

  /** No two live entries belong to the same peer. */
  ghost predicate UniqueAddrs(t: Table)
  {
    forall j, k {:trigger AddrsApart(t, j, k)} :: AddrsApart(t, j, k)
  }

  /** Two tables that differ at most in last_use. */
  predicate SameFlows(t: Table, u: Table)
  {
    |t| == |u| &&
    forall k :: 0 <= k < |t| ==>
      t[k].inUse == u[k].inUse && t[k].sock == u[k].sock && t[k].from == u[k].from
  }

  // ---------------------------------------------------------------------------------------
  // The descriptor ceiling

  lemma InUseSocksSnoc(t: Table)
    requires |t| > 0
    ensures InUseSocks(t) ==
      InUseSocks(t[..|t| - 1]) + (if t[|t| - 1].inUse then {t[|t| - 1].sock} else {})
  {
    var u := t[..|t| - 1];
    var e := t[|t| - 1];
    forall s | s in InUseSocks(t)
      ensures s in InUseSocks(u) + (if e.inUse then {e.sock} else {})
    {
      var k :| 0 <= k < |t| && t[k].inUse && t[k].sock == s;
      if k < |t| - 1 {
        assert u[k] == t[k];
      }
    }
    forall s | s in InUseSocks(u)
      ensures s in InUseSocks(t)
    {
      var k :| 0 <= k < |u| && u[k].inUse && u[k].sock == s;
      assert t[k] == u[k];
    }
  }

  /** The scan computes the maximum of the watch set: it is one of the watched descriptors and
      no watched descriptor is larger. */
  lemma {:induction false} MaxSockIsMax(bind: int, t: Table)
    ensures MaxSock(bind, t) in Watched(bind, t)
    ensures forall s :: s in Watched(bind, t) ==> s <= MaxSock(bind, t)
  {
    if |t| == 0 {
      assert InUseSocks(t) == {};
    } else {
      var u := t[..|t| - 1];
      MaxSockIsMax(bind, u);
      InUseSocksSnoc(t);
    }
  }

  /** The maximum of the watch set is unique: any watched descriptor that bounds all the others
      is what the scan returns. */
  lemma MaxSockOfMax(bind: int, t: Table, m: int)
    requires m in Watched(bind, t)
    requires forall s :: s in Watched(bind, t) ==> s <= m
    ensures MaxSock(bind, t) == m
  {
    MaxSockIsMax(bind, t);
  }

  /** UPDATE_SOCK_FD_MAX_ADD is exact: when one descriptor joins the watch set, the new maximum
      is the larger of the old maximum and that descriptor. */
  lemma MaxSockAdd(bind: int, t: Table, u: Table, s: int)
    requires Watched(bind, u) == Watched(bind, t) + {s}
    ensures MaxSock(bind, u) == if s > MaxSock(bind, t) then s else MaxSock(bind, t)
  {
    MaxSockIsMax(bind, t);
    MaxSockOfMax(bind, u, if s > MaxSock(bind, t) then s else MaxSock(bind, t));
  }

  /** UPDATE_SOCK_FD_MAX_RM may skip the rescan: removing a descriptor below the maximum
      leaves the maximum where it was. */
  lemma MaxSockRemove(bind: int, t: Table, u: Table, s: int)
    requires Watched(bind, u) == Watched(bind, t) - {s}
    requires s < MaxSock(bind, t)
    ensures MaxSock(bind, u) == MaxSock(bind, t)
  {
    MaxSockIsMax(bind, t);
    MaxSockOfMax(bind, u, MaxSock(bind, t));
  }

  // ---------------------------------------------------------------------------------------
  // How each table operation moves the watch set, the ceiling and the invariants

  /** Evicting one live entry removes exactly its socket from the watch set. */
  lemma WatchedAfterEvict(bind: int, t: Table, i: int)
    requires 0 <= i < |t| && t[i].inUse && SocksOk(bind, t)
    ensures Watched(bind, t[i := t[i].(inUse := false)]) == Watched(bind, t) - {t[i].sock}
  {
    var u := t[i := t[i].(inUse := false)];
    forall s | s in Watched(bind, t) - {t[i].sock}
      ensures s in Watched(bind, u)
    {
      if s != bind {
        var k :| 0 <= k < |t| && t[k].inUse && t[k].sock == s;
        assert u[k] == t[k];
      }
    }
    forall s | s in Watched(bind, u)
      ensures s != t[i].sock
    {
      if s != bind {
        var k :| 0 <= k < |u| && u[k].inUse && u[k].sock == s;
        assert SocksApart(t, k, i);
      }
    }
  }

  /** Clearing one live entry keeps the socket and uniqueness invariants. */
  lemma EvictKeepsInvariants(bind: int, t: Table, i: int)
    requires 0 <= i < |t| && SocksOk(bind, t) && UniqueAddrs(t)
    ensures SocksOk(bind, t[i := t[i].(inUse := false)])
    ensures UniqueAddrs(t[i := t[i].(inUse := false)])
  {
    var u := t[i := t[i].(inUse := false)];
    forall j, k
      ensures SocksApart(u, j, k) && AddrsApart(u, j, k)
    {
      assert SocksApart(t, j, k) && AddrsApart(t, j, k);
    }
  }

  /** A successful insertion adds exactly the new socket to the watch set. */
  lemma WatchedAfterInsert(bind: int, t: Table, sock: int, addr: SockAddrIn)
    requires FirstFree(t) >= 0
    ensures Watched(bind, Inserted(t, sock, addr)) == Watched(bind, t) + {sock}
  {
    var i := FirstFree(t);
    var u := Inserted(t, sock, addr);
    assert u[i].sock == sock;
    forall s | s in Watched(bind, t)
      ensures s in Watched(bind, u)
    {
      if s != bind {
        var k :| 0 <= k < |t| && t[k].inUse && t[k].sock == s;
        assert k != i && u[k] == t[k];
      }
    }
  }

  /** A sweep removes exactly the evicted sockets from the watch set. */
  lemma WatchedAfterClean(bind: int, t: Table, now: int, timeout: int)
    requires SocksOk(bind, t)
    ensures EvictedSocks(t, now, timeout) <= InUseSocks(t)
    ensures Watched(bind, Cleaned(t, now, timeout)) == Watched(bind, t) - EvictedSocks(t, now, timeout)
  {
    var u := Cleaned(t, now, timeout);
    var ev := EvictedSocks(t, now, timeout);
    if timeout <= 0 {
      assert ev == {};
    } else {
      forall s | s in Watched(bind, t) - ev
        ensures s in Watched(bind, u)
      {
        if s != bind {
          var k :| 0 <= k < |t| && t[k].inUse && t[k].sock == s;
          assert !Stale(t[k], now, timeout);
          assert u[k] == t[k];
        }
      }
      forall s | s in Watched(bind, u)
        ensures s in Watched(bind, t) - ev
      {
        if s != bind {
          var k :| 0 <= k < |u| && u[k].inUse && u[k].sock == s;
          assert u[k] == t[k] && t[k].inUse;
          forall m | 0 <= m < |t| && Stale(t[m], now, timeout)
            ensures t[m].sock != s
          {
            assert SocksApart(t, k, m);
          }
          assert s !in ev;
        }
      }
    }
  }

  /** A sweep clears the in_use flag of exactly the stale entries (none when eviction is
      disabled) and changes nothing else. */
  lemma CleanedExactlyStale(t: Table, now: int, timeout: int)
    ensures |Cleaned(t, now, timeout)| == |t|
    ensures forall k :: 0 <= k < |t| ==>
      (Cleaned(t, now, timeout)[k].inUse <==> t[k].inUse && !(timeout > 0 && Stale(t[k], now, timeout)))
    ensures forall k :: 0 <= k < |t| ==>
      Cleaned(t, now, timeout)[k] == t[k].(inUse := Cleaned(t, now, timeout)[k].inUse)
  {
  }

  /** Lookup, the socket invariants and the uniqueness invariant see only the flows, not the
      timestamps, so touching an entry changes none of them. */
  lemma SameFlowsAgree(bind: int, t: Table, u: Table, addr: SockAddrIn)
    requires SameFlows(t, u)
    ensures Watched(bind, u) == Watched(bind, t)
    ensures MaxSock(bind, u) == MaxSock(bind, t)
    ensures SocksOk(bind, u) == SocksOk(bind, t)
    ensures UniqueAddrs(u) == UniqueAddrs(t)
    ensures Find(u, addr) == Find(t, addr)
  {
    assert forall k :: 0 <= k < |t| ==> (Tracks(u[k], addr) <==> Tracks(t[k], addr));
    assert InUseSocks(u) == InUseSocks(t);
    forall j, k
      ensures SocksApart(u, j, k) == SocksApart(t, j, k)
      ensures AddrsApart(u, j, k) == AddrsApart(t, j, k)
    {
    }
    MaxSockIsMax(bind, t);
    MaxSockOfMax(bind, u, MaxSock(bind, t));
  }

  /** A new entry is only written for a peer the lookup did not find, so addresses stay unique;
      and the new socket is fresh, so the socket invariant holds too. */
  lemma InsertKeepsInvariants(bind: int, t: Table, sock: int, addr: SockAddrIn)
    requires SocksOk(bind, t) && UniqueAddrs(t)
    requires Find(t, addr) == -1
    requires 0 <= sock && sock != bind && sock !in InUseSocks(t)
    ensures SocksOk(bind, Inserted(t, sock, addr)) && UniqueAddrs(Inserted(t, sock, addr))
    ensures Find(Inserted(t, sock, addr), addr) == FirstFree(t)
  {
    var i := FirstFree(t);
    if i >= 0 {
      var u := Inserted(t, sock, addr);
      forall j | 0 <= j < |t| && j != i && t[j].inUse
        ensures u[j] == t[j] && t[j].sock != sock && t[j].from != addr
      {
        assert t[j].sock in InUseSocks(t);
        assert !Tracks(t[j], addr);
      }
      forall j, k
        ensures SocksApart(u, j, k) && AddrsApart(u, j, k)
      {
        assert SocksApart(t, j, k) && AddrsApart(t, j, k);
      }
    }
    FindAfterInsert(t, sock, addr);
  }

  /** After inserting a peer the lookup did not find, the lookup finds it in the slot insertion
      chose, or still not at all when the table was full. */
  lemma FindAfterInsert(t: Table, sock: int, addr: SockAddrIn)
    requires Find(t, addr) == -1
    ensures Find(Inserted(t, sock, addr), addr) == FirstFree(t)
  {
    var i := FirstFree(t);
    if i >= 0 {
      var u := Inserted(t, sock, addr);
      assert Tracks(u[i], addr);
      assert forall k :: 0 <= k < i ==> u[k] == t[k] && !Tracks(u[k], addr);
    }
  }

  // ---------------------------------------------------------------------------------------
  // Eviction

  /** um_sockmap_clean reports a purge exactly when it changed the table. */
  lemma PurgedIffChanged(t: Table, now: int, timeout: int)
    ensures Purged(t, now, timeout) <==> Cleaned(t, now, timeout) != t
  {
    var u := Cleaned(t, now, timeout);
    if Purged(t, now, timeout) {
      var k :| 0 <= k < |t| && Stale(t[k], now, timeout);
      assert u[k] != t[k];
    }
    if u != t {
      assert timeout > 0;
      var k :| 0 <= k < |t| && u[k] != t[k];
      assert Stale(t[k], now, timeout);
    }
  }

  /** A second sweep with the same clock reading finds nothing left to evict. */
  lemma CleanIdempotent(t: Table, now: int, timeout: int)
    ensures !Purged(Cleaned(t, now, timeout), now, timeout)
    ensures Cleaned(Cleaned(t, now, timeout), now, timeout) == Cleaned(t, now, timeout)
  {
    PurgedIffChanged(Cleaned(t, now, timeout), now, timeout);
  }

  /** A peer admitted while the clock cannot be read keeps last_use == TIME_INVALID, and every
      later sweep with a positive timeout evicts it, whatever the clock then says. */
  lemma ClockFailureStarvesNewFlow(t: Table, sock: int, addr: SockAddrIn, now: int, timeout: int)
    requires FirstFree(t) >= 0 && timeout > 0
    ensures var u := Touched(Inserted(t, sock, addr), FirstFree(t), TimeInvalid);
      Stale(u[FirstFree(t)], now, timeout) && !Cleaned(u, now, timeout)[FirstFree(t)].inUse
  {
  }

  /** With eviction disabled a full table stays full: the next new peer is dropped. */
  lemma FullTableDropsWhenEvictionDisabled(t: Table, sock: int, addr: SockAddrIn, now: int, timeout: int)
    requires timeout <= 0
    requires forall k :: 0 <= k < |t| ==> t[k].inUse
    ensures FirstFree(Cleaned(t, now, timeout)) == -1
    ensures Inserted(Cleaned(t, now, timeout), sock, addr) == t
  {
  }
}
