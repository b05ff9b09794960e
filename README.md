# udpmask connection tracking, in Dafny

udpmask is a UDP relay. It listens on one socket. For every peer that sends it a datagram, it
opens one forwarding socket towards a fixed upstream. It then passes datagrams both ways,
transformed by a masking function. This project models the relay's connection-tracking core in
`udpmask.c`:

- the peer table `map[UM_MAX_CLIENT]`, and the operations on it:
  - the lookup loop and `sockaddr_in_cmp`;
  - `um_sockmap_ins`;
  - `um_sockmap_clean`;
  - `UPDATE_LAST_USE`;
- the descriptor ceiling `sock_fd_max`, with `update_sock_fd_max`, `UPDATE_SOCK_FD_MAX_ADD` and
  `UPDATE_SOCK_FD_MAX_RM`;
- the watch set `active_fd_set`;
- the set of descriptors the process holds open;
- the per-pass transitions of `start()`:
  - the listener path: lookup, admit, forward, touch;
  - the peer path: touch, reply;
  - the closing sweep, skipped when the listener path already swept;
  - the clean-up after the loop.

Files:

- `sockaddr.dfy` (module `SockAddr`): IPv4 socket addresses and `sockaddr_in_cmp`, including the
  wrap-around of the unsigned address difference and its truncation to `int`.
- `peer_table.dfy` (module `PeerTable`):
  - the table as a `seq<Entry>`;
  - the specification functions for lookup, insertion, touch and sweep;
  - the watch set and ceiling the table implies;
  - the invariants: live sockets are distinct, open and not the listening socket, and no peer
    has two live entries;
  - lemmas showing how each operation moves them.
- `relay.dfy` (module `Relay`):
  - class `Relay`, whose fields are the table (an `array`), the listening socket, the timeout, the
    ceiling, the watch set and the open descriptors;
  - one method per operation of the source, each proved against the specification functions;
  - `Valid()`, the invariant every method keeps;
  - `NoLeak()` (every open descriptor is watched), which the as-written admit path breaks.
  - The listener path and the loop pass take a flag `closeDropped`. With `false` they follow the
    code as written, and the dropped peer's socket stays open. With `true` they use the corrected
    admit path, and then a leak-free state stays leak-free (see Findings).

Sockets are descriptor numbers. The results of `recvfrom`, `recv`, `socket()`, `select()` and
`time(NULL)` are inputs to the methods. A read that returned zero bytes or an error is `NoData` /
`NoDatagram`, so a delivered payload is never empty. The payload transform is a function
parameter. Sends are returned as a sequence of `Outgoing` datagrams.

## Model

| member | source | states |
|---|---|---|
| SockAddr.SubU32ZeroIff | udpmask.c:152 | the wrapped 32-bit difference of two IPv4 addresses is zero exactly when the addresses are equal |
| SockAddr.Cmp | udpmask.c:139-158 | the comparison is 0 iff family, port and address all agree; when families differ its sign orders the families, and when only ports differ it orders the ports |
| PeerTable.Find | udpmask.c:213-219 | the lookup gives the first live slot holding the address, or -1 exactly when no live slot holds it |
| PeerTable.FirstFree | udpmask.c:89-101 | insertion picks the lowest free slot (every earlier slot is in use), or -1 exactly when the table is full |
| PeerTable.MaxSockIsMax | udpmask.c:47-55 | the scan's result is a watched descriptor and no watched descriptor exceeds it |
| PeerTable.MaxSockOfMax | udpmask.c:47-55 | the maximum of the watch set is unique, so any watched descriptor bounding the others is what the scan returns |
| PeerTable.MaxSockAdd | udpmask.c:57-62 | when one descriptor joins the watch set, max(old ceiling, descriptor) is the exact new maximum |
| PeerTable.MaxSockRemove | udpmask.c:64-69 | removing a descriptor below the ceiling leaves the maximum unchanged, so skipping the rescan is sound |
| PeerTable.WatchedAfterEvict | udpmask.c:118-120 | clearing one live slot removes exactly its socket from the watch set (sockets are distinct) |
| PeerTable.EvictKeepsInvariants | udpmask.c:118 | clearing a slot keeps live sockets distinct and valid, and peers unique |
| PeerTable.WatchedAfterInsert | udpmask.c:233-236 | a successful insertion adds exactly the new socket to the watch set |
| PeerTable.WatchedAfterClean | udpmask.c:114-122 | the evicted sockets were live, and a sweep removes exactly them from the watch set |
| PeerTable.CleanedExactlyStale | udpmask.c:110-118 | a sweep clears in_use on exactly the stale slots, on none when the timeout is non-positive, and changes no other field |
| PeerTable.SameFlowsAgree | udpmask.c:77-83 | changing only timestamps changes neither the lookup, the watch set, the ceiling nor the invariants |
| PeerTable.FindAfterInsert | udpmask.c:85-104 | after inserting a peer the lookup did not find, the lookup finds it in exactly the slot insertion chose, and still not at all on a full table |
| PeerTable.InsertKeepsInvariants | udpmask.c:221-233 | inserting a fresh socket for a peer the lookup missed keeps peers unique and sockets distinct, and the lookup then finds the peer in the inserted slot |
| PeerTable.PurgedIffChanged | udpmask.c:106-135 | the sweep returns 1 exactly when it changed the table |
| PeerTable.CleanIdempotent | udpmask.c:106-135 | a second sweep with the same clock reading evicts nothing and leaves the table as it is |
| PeerTable.ClockFailureStarvesNewFlow | udpmask.c:77-117 | a flow admitted while the clock read fails keeps last_use TIME_INVALID and is evicted by every later sweep with a positive timeout |
| PeerTable.FullTableDropsWhenEvictionDisabled | udpmask.c:99-112 | with the timeout non-positive, the sweep frees nothing, so a full table rejects the new peer and stays unchanged |
| Relay.RepliesGoToReadablePeers | udpmask.c:261-276 | every reply of the peer loop goes via the listening socket to the address of a live slot that was readable and received data; there are no more replies than slots |
| Relay.ReadablePeersGetReplies | udpmask.c:261-276 | conversely, every live slot that was readable and received data gets a reply: the transformed payload, sent via the listening socket to that slot's peer |
| Relay.RepliesOnePerSlot | udpmask.c:261-276 | there are exactly as many replies as slots that were readable and received data |
| Relay.DatagramReachesFlow | udpmask.c:212-257 | after the listener path the sender has a flow exactly when it had one or was admitted into a free slot of the swept table; a known sender keeps its slot and socket; an admitted one has the new socket, in the first free slot, with last_use the clock reading or TIME_INVALID if the clock failed |
| Relay.Relay.constructor | udpmask.c:183-190 | the start state: zeroed table, watch set {bind_sock}, ceiling bind_sock, invariant established |
| Relay.Relay.UpdateSockFdMax | udpmask.c:47-55 | the rescan sets the ceiling to the maximum of the watch set |
| Relay.Relay.AddSockFdMax | udpmask.c:57-62 | after a descriptor joined the watch set, the macro leaves the exact maximum |
| Relay.Relay.RmSockFdMax | udpmask.c:64-69 | after a descriptor left the watch set, the macro leaves the exact maximum |
| Relay.Relay.Lookup | udpmask.c:213-219 | the loop returns what Find specifies |
| Relay.Relay.Ins | udpmask.c:85-104 | returns the first free slot (or -1) and writes the new entry there, changing nothing else |
| Relay.Relay.Touch | udpmask.c:77-83 | records the clock reading as last_use unless it is TIME_INVALID; keeps the invariant |
| Relay.Relay.Evict | udpmask.c:116-122 | clears the slot, closes its socket, FD_CLRs it and keeps the ceiling exact |
| Relay.Relay.Clean | udpmask.c:106-135 | the table becomes Cleaned, the return value is Purged, exactly the evicted sockets leave the watch set and the open set, no leak is introduced, and a non-positive timeout changes nothing |
| Relay.Relay.AdmitNewPeer | udpmask.c:221-248 | a failed socket() changes nothing; otherwise one sweep, then insertion into the first free slot of the swept table; on success the socket is watched; in every case the new socket stays open |
| Relay.Relay.Register | udpmask.c:233-240 | insert, and on success FD_SET and UPDATE_SOCK_FD_MAX_ADD: the table is Inserted and the watch set grows by the socket exactly when a slot was free |
| Relay.Relay.AdmitNewPeerClosingDrop | udpmask.c:241-247 | the admit path with the dropped socket closed: same table, sweep and watch-set effect as the code, but the new socket stays open exactly when it was inserted, so a leak-free state stays leak-free |
| Relay.Relay.OnListenerPacket | udpmask.c:209-257 | the table becomes AfterDatagram (touch a known flow, or sweep and admit an unknown peer, then touch); the send is the transformed payload on the sender's socket exactly when the sender then has a flow; it sweeps exactly when it admits; the evicted sockets leave the watch and open sets; the new socket is watched when inserted, and stays open in every case (closeDropped false, as written) or only when inserted (closeDropped true, which keeps a leak-free state leak-free) |
| Relay.Relay.Listen | udpmask.c:204-259 | handles the datagram only when select() reported the listening socket and recvfrom() delivered one; otherwise nothing changes |
| Relay.Relay.OnPeerPacket | udpmask.c:262-274 | touches the slot, then replies through the listening socket to the slot's peer |
| Relay.Relay.DrainPeers | udpmask.c:261-276 | the table becomes PeersTouched and the replies are Replies, in slot order |
| Relay.Relay.Iteration | udpmask.c:192-281 | a failed select() changes nothing; for a ready pass the new table is the listener step, then the peer loop's touches, then a sweep unless the listener step swept; the sends are the listener's forward followed by the peer loop's replies; the watch and open sets lose the evicted sockets and gain the admitted one (open set: as on the listener path); exactly one sweep runs; with closeDropped true a leak-free state stays leak-free |
| Relay.Relay.Shutdown | udpmask.c:283-289 | every slot is released and every live forwarding socket closed; from a leak-free state only the listening socket stays open |
| Relay.DroppedPeerKeepsSocketOpen | udpmask.c:241-247 | one slot, eviction off: the second peer's socket 5 ends open but neither watched nor tracked |

## Left out

- I/O is not modelled. `recvfrom`, `recv`, `send`, `sendto`, `socket()`, `select()` and `time(NULL)` are inputs or outputs of the methods. Sends are returned, not performed.
- `connect()` on a new forwarding socket is not modelled. Its result is ignored by the source and has no effect on the state modelled here.
- The payload transform, `transform.c` and `udpmask.h`, are not part of this model. The transform is a function parameter.
- `TIME_INVALID` is taken to be `(time_t)-1`, what `time(NULL)` returns on failure, since the header that defines it is not part of this model.
- Logging, signal handling, `main`, argument parsing, `usage`, daemonising and the pid file are not modelled.
- The outer `while (!signal_term)` loop is modelled one pass at a time by `Iteration`. The signal flag is not modelled.
- `UM_MAX_CLIENT` is the constructor's `capacity` rather than a fixed constant.
- `time_t` overflow and `FD_SETSIZE` are not modelled. Timestamps and descriptors are unbounded integers.
- `sockaddr_in_cmp` assumes `long` is at least 32 bits wide (as on LP64), so the address difference survives the conversion to `long` and only the `(int)` cast truncates.
- `start()` never closes `bind_sock` (udpmask.c:283-291). `main()` closes it after `start()` returns (udpmask.c:500), outside this model, so `Shutdown` leaves it open.
- `start()` never closes `tmp_sock` when `um_sockmap_ins` fails (udpmask.c:241-247). `AdmitNewPeer`, and the listener path and loop pass with `closeDropped` false, model this as written; `closeDropped` true selects the corrected admit path (see Findings).

## Findings

| source | as written | input that shows it | evidently intended | confidence | as-written member | corrected member |
|---|---|---|---|---|---|---|
| udpmask.c:241-247 | when `um_sockmap_ins` returns -1, `tmp_sock` is neither closed nor watched | one slot, timeout 0: peer a is admitted with socket 4, then peer b arrives and gets socket 5, which stays open with no slot and no watch entry | `close(tmp_sock)` on the failed insertion, so every open descriptor stays watched | not executed | Relay.DroppedPeerKeepsSocketOpen | Relay.Relay.AdmitNewPeerClosingDrop |
