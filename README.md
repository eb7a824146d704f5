# ProtoStackBase, modelled in Dafny

This project models `ProtoStackBase` from OpenVPN 3 (`openvpn/ssl/protostack.hpp`). It is the
single-threaded orchestrator that runs an SSL session over an unreliable datagram link.

- Downwards, it drains a raw-packet queue, and a cleartext queue through the SSL object, into
  the reliable send window, encapsulates each packet with its window id and hands it to `net_send`.
- Upwards, it decapsulates inbound datagrams into the reliable receive window and delivers them
  in sequence, raw packets to `raw_recv` and SSL packets to the SSL object. It then passes the
  cleartext the SSL object yields to `app_recv`.
- Around both, it keeps the `invalidated` latch (set on SSL and encapsulation errors), the
  `up_stack` reentry counter that turns a nested `flush` into a no-op, standalone ACKs, and the
  retransmit deadline.

Layout:

- `base.dfy` (module `Base`): buffers, packets, the wire forms handed to `net_send`, time with an
  infinite value, failures, statuses, and the events the stack emits.
- `reliable.dfy` (module `Reliable`): minimal value models of the send window (consecutive ids
  from `head_id`, at most `span` outstanding, a deadline per entry) and the receive window (a
  map from id to packet plus an in-order cursor).
- `collaborators.dfy` (module `Collaborators`): the SSL object as a script of its answers, the
  derived layer's `encapsulate` as the set of (id, packet) pairs it throws on, and `decapsulate`
  and `generate_ack` as functions.
- `pipeline.dfy` (module `Pipeline`): each loop of the class as a function on values, with the
  lemmas that state what the loop promises (FIFO draining, stopping conditions, in-order
  delivery, ACK batching, retransmission).
- `protostack.dfy` (module `ProtoStack`): the class `ProtoStackBase`. Its fields are updated in
  place. A ghost `trace` records, in call order, the calls `net_send`, `app_recv`, `raw_recv`,
  `stats->error` and `invalidate_callback`, the buffers `write_ciphertext` accepted (one that throws is not recorded), and,
  for `write_cleartext_unbuffered`, the bytes the SSL object reports as written (the code hands
  it the whole front buffer and then pops that buffer whole, so the rest of it is dropped). It does not record `encapsulate`,
  `decapsulate` or `generate_ack`: their effects show in the windows, the ACK list and the
  wire units sent. Each method's `ensures` ties
  the new state and the trace to the `Pipeline` function of the old state. Each loop is a
  `while` loop whose invariants prove it computes that function.

An exception leaving an entry point is modelled as the returned `Status` (`Thrown(f)`). A caught
failure appears in the trace as the `stats->error` tag (when statistics are attached) followed by
one `invalidate_callback`.

## Model

| member | source | states |
|---|---|---|
| ProtoStack.ProtoStackBase.constructor | openvpn/ssl/protostack.hpp:61-79 | starts valid, not invalidated, not started, reentry level 0, deadline infinite, both queues and the ACK list empty, both windows empty with the given span |
| ProtoStack.ProtoStackBase.StartHandshake | openvpn/ssl/protostack.hpp:82-90 | once invalidated it changes nothing; a throwing SSL handshake propagates and leaves everything unchanged, `ssl_started` included; otherwise the handshake is marked started and `up_sequenced` runs with it started; the outbound queues, send window and deadline are untouched |
| ProtoStack.ProtoStackBase.NetRecv | openvpn/ssl/protostack.hpp:94-98 | once invalidated it changes nothing; otherwise the state and trace are exactly those of `up_stack` on the datagram, and the reentry level is restored |
| ProtoStack.ProtoStackBase.AppSend | openvpn/ssl/protostack.hpp:103-107 | the buffer is appended at the back of the cleartext queue unless invalidated; nothing else can change |
| ProtoStack.ProtoStackBase.RawSend | openvpn/ssl/protostack.hpp:112-116 | the packet is appended at the back of the raw queue unless invalidated; nothing else can change |
| ProtoStack.ProtoStackBase.Flush | openvpn/ssl/protostack.hpp:121-129 | a no-op when invalidated or while `up_stack_reentry_level > 0`; otherwise queues, SSL object, send window, trace and latch are those of `down_stack_raw` then `down_stack_app`, and the deadline is recomputed only when neither threw |
| ProtoStack.ProtoStackBase.DownStacks | openvpn/ssl/protostack.hpp:125-126 | `down_stack_raw` followed by `down_stack_app`, the latter skipped when the former threw; matches `FlushModel` |
| ProtoStack.ProtoStackBase.CallbackFlush | openvpn/ssl/protostack.hpp:121-124 | a `flush` called back from inside `up_stack` (reentry level above zero) changes nothing |
| ProtoStack.ProtoStackBase.SendPendingAcks | openvpn/ssl/protostack.hpp:132-147 | once invalidated it changes nothing; otherwise the pending-ACK list ends empty and the trace gains exactly the standalone ACKs `AckBatches` describes |
| ProtoStack.ProtoStackBase.Retransmit | openvpn/ssl/protostack.hpp:150-165 | changes nothing when invalidated or before the deadline; otherwise exactly the due entries get a new deadline, the trace gains `Resent` of the window, and the deadline is recomputed from the new window |
| ProtoStack.ProtoStackBase.ResendDue | openvpn/ssl/protostack.hpp:154-162 | the `for` loop from `head_id` to `tail_id` yields the window `Resend` describes and the re-sent packets `Resent` describes |
| ProtoStack.ProtoStackBase.NextRetransmit | openvpn/ssl/protostack.hpp:168-174 | infinite once invalidated, the stored deadline otherwise |
| ProtoStack.ProtoStackBase.Invalidate | openvpn/ssl/protostack.hpp:183-187 | sets the latch and emits exactly one `invalidate_callback` |
| ProtoStack.ProtoStackBase.CatchFatal | openvpn/ssl/protostack.hpp:248-253 | a caught fatal failure sets the latch and adds `FatalTrail`: the error tag when stats exist, then one `invalidate_callback` |
| ProtoStack.ProtoStackBase.DownStackRaw | openvpn/ssl/protostack.hpp:283-306 | raw queue, send window and trace are those of `DrainToWindow`; a failing encapsulation is caught as `ENCAPSULATION_ERROR`, invalidates, and propagates |
| ProtoStack.ProtoStackBase.DrainQueue | openvpn/ssl/protostack.hpp:285-305 | the draining `while` loop computes exactly `DrainToWindow` of its queue and window |
| ProtoStack.ProtoStackBase.DownStackApp | openvpn/ssl/protostack.hpp:235-280 | cleartext queue, SSL object, send window, trace and status are those of `DownApp`; the latch is set exactly when it threw a fatal failure |
| ProtoStack.ProtoStackBase.PushAppCleartext | openvpn/ssl/protostack.hpp:240-256 | the cleartext loop computes exactly `PushCleartext` of the queue and the SSL object's write answers |
| ProtoStack.ProtoStackBase.EncapsulateCiphertext | openvpn/ssl/protostack.hpp:259-278 | the ciphertext loop drains the SSL object's ready ciphertext into the send window as `DrainToWindow` describes, consuming exactly the units taken |
| ProtoStack.ProtoStackBase.UpStack | openvpn/ssl/protostack.hpp:309-314 | the reentry level is raised for the call and restored on every exit, including a throwing `decapsulate`; the rest is `NetRecvModel` |
| ProtoStack.ProtoStackBase.UpSequenced | openvpn/ssl/protostack.hpp:318-362 | receive window, SSL object, trace and status are those of `UpSequencedModel`; the outbound queues, send window and deadline are untouched |
| ProtoStack.ProtoStackBase.DeliverStage | openvpn/ssl/protostack.hpp:321-334 | receive window, SSL intake and trace are those of `Deliver`; nothing else changes |
| ProtoStack.ProtoStackBase.ReadStage | openvpn/ssl/protostack.hpp:337-361 | SSL read answers and trace follow `ReadCleartext`; a throwing `read_cleartext` is caught as `SSL_ERROR`, invalidates, and propagates |
| ProtoStack.ProtoStackBase.DeliverSequenced | openvpn/ssl/protostack.hpp:321-334 | the delivery `while` loop computes exactly `Deliver`, including when callbacks call `flush` back |
| ProtoStack.ProtoStackBase.ReadToApp | openvpn/ssl/protostack.hpp:338-361 | the read `while` loop computes exactly `ReadCleartext`, including when `app_recv` calls `flush` back |
| ProtoStack.ProtoStackBase.UpdateRetransmit | openvpn/ssl/protostack.hpp:364-367 | the deadline becomes `now + rel_send.until_retransmit(now)` |
| Pipeline.FatalTrail | openvpn/ssl/protostack.hpp:248-253 | what a catch block leaves in the trace: the stats tag when stats exist, then `invalidate_callback`; its shape is stated by `FatalTrailShape` |
| Pipeline.FatalTrailShape | openvpn/ssl/protostack.hpp:248-253 | a caught failure emits exactly one `invalidate_callback`, last, preceded by the failure's stats tag exactly when stats exist; a non-fatal status emits nothing |
| Pipeline.PushCleartext | openvpn/ssl/protostack.hpp:240-256 | the cleartext loop; it never grows the queue or the answer script, and what it pops, writes and stops on is stated by `PushCleartextShape`, `PushCleartextReplies` and `PushCleartextWrites` |
| Pipeline.PushCleartextShape | openvpn/ssl/protostack.hpp:240-256 | FIFO over whole buffers: the first k buffers are popped and the rest of the queue is untouched; the loop stops at an empty queue or at the first answer that is not a byte count, failing exactly when that answer is an exception |
| Pipeline.PushCleartextReplies | openvpn/ssl/protostack.hpp:244-246 | one SSL write answer is consumed per buffer popped, plus the one that stopped the loop |
| Pipeline.PushCleartextWrites | openvpn/ssl/protostack.hpp:244-255 | the i-th write is recorded as the prefix of the i-th buffer that the i-th answer reports as written, and that buffer is popped whole, so the rest of it is dropped |
| Pipeline.DrainToWindow | openvpn/ssl/protostack.hpp:285-305 | the packets taken come from the front, the rest stay queued in order, and the window grows by exactly the number taken |
| Pipeline.DrainToWindowStops | openvpn/ssl/protostack.hpp:285 | without a failure the loop stops exactly at an empty queue or a full window; it never takes more than the window has room for |
| Pipeline.DrainToWindowEntries | openvpn/ssl/protostack.hpp:287-289 | the taken packets are appended to the window in queue order, with consecutive ids after `tail_id` and fresh deadlines; earlier entries are kept |
| Pipeline.DrainToWindowFailure | openvpn/ssl/protostack.hpp:292-301 | a failing encapsulation is the last packet taken and is not sent; every packet taken before it is sent |
| Pipeline.DrainToWindowSent | openvpn/ssl/protostack.hpp:293-304 | the i-th `net_send` carries queue packet i encapsulated under id `tail_id + i` |
| Pipeline.SslPackets | openvpn/ssl/protostack.hpp:262 | one non-raw packet per ready ciphertext unit, the i-th packet carrying the i-th unit |
| Pipeline.DownApp | openvpn/ssl/protostack.hpp:235-280 | before the handshake it touches nothing; afterwards it fails only with `SSL_ERROR` or `ENCAPSULATION_ERROR`, and the window stays valid |
| Pipeline.FlushModel | openvpn/ssl/protostack.hpp:121-129 | without a throw the raw queue ends empty or the window ends full; an SSL failure requires a started handshake; before the handshake the cleartext queue and SSL object are untouched |
| Pipeline.DownAppKeepsFull | openvpn/ssl/protostack.hpp:259 | `down_stack_app` only adds to the send window, so a full window stays full |
| Pipeline.Deliver | openvpn/ssl/protostack.hpp:321-334 | the delivery loop keeps the window valid and never moves the cursor backwards |
| Pipeline.DeliverCount | openvpn/ssl/protostack.hpp:323-333 | one packet is handed on per id the cursor advances past |
| Pipeline.DeliverInOrder | openvpn/ssl/protostack.hpp:321-333 | the packets handed on are exactly those at ids cursor, cursor+1, …, up to the new cursor, in that order; raw ones go to `raw_recv` and SSL ones to `write_ciphertext` |
| Pipeline.DeliverKeepsRest | openvpn/ssl/protostack.hpp:333 | the window keeps exactly the packets at or beyond the new cursor, unchanged |
| Pipeline.DeliverStops | openvpn/ssl/protostack.hpp:321-333 | the loop stops only at a missing id or at an SSL packet it cannot feed (handshake not started, or `write_ciphertext` threw), which stays pending at the cursor; a failure happens only once started and at an SSL packet; before the handshake every packet passed is raw |
| Pipeline.Handoff | openvpn/ssl/protostack.hpp:324-329 | a raw packet goes to `raw_recv`, an SSL packet to `write_ciphertext`; `DeliverInOrder` states the order in which packets are handed on |
| Pipeline.DeliverIntake | openvpn/ssl/protostack.hpp:326-333 | the `write_ciphertext` answers consumed are one per SSL packet handed on plus one when the loop fails; an exhausted script answers success |
| Pipeline.DeliverIntakeSucceeded | openvpn/ssl/protostack.hpp:328-333 | every answer consumed for an SSL packet that was handed on and advanced past is a success |
| Pipeline.DeliverIntakeFailed | openvpn/ssl/protostack.hpp:328-329 | the loop fails exactly when, once started, it stands at an SSL packet whose `write_ciphertext` answer is a failure |
| Pipeline.ReadCleartext | openvpn/ssl/protostack.hpp:338-361 | the read loop; it consumes only answers from the script, and what reaches `app_recv` and when it fails is stated by `ReadCleartextShape` |
| Pipeline.ReadCleartextShape | openvpn/ssl/protostack.hpp:338-361 | every chunk read before the first SHOULD_RETRY or exception reaches `app_recv` in order and nothing after it does; the loop fails exactly on an exception |
| Pipeline.UpSequencedModel | openvpn/ssl/protostack.hpp:318-362 | fails only with an intake failure or `SSL_ERROR`, and `SSL_ERROR` only once started; the receive window stays valid |
| Pipeline.NetRecvModel | openvpn/ssl/protostack.hpp:309-314 | a datagram `decapsulate` rejects propagates its failure and changes nothing; one it does not queue triggers no delivery; a fatal status can only be `SSL_ERROR` after the handshake |
| Pipeline.AckBatches | openvpn/ssl/protostack.hpp:136-145 | the standalone ACKs `send_pending_acks` sends; which ids they carry and how many there are is stated by `AckBatchesCover` and `AckBatchesCount` |
| Pipeline.AckBatchesCover | openvpn/ssl/protostack.hpp:136-145 | the standalone ACKs carry every pending id exactly once, in order, between 1 and `max_ack_list` ids each |
| Pipeline.AckBatchesCount | openvpn/ssl/protostack.hpp:136-145 | K pending ids take exactly ceil(K / `max_ack_list`) standalone ACKs |
| Pipeline.Resend | openvpn/ssl/protostack.hpp:154-162 | ids, packets and acknowledgement state are unchanged; exactly the due entries get the new deadline |
| Pipeline.Resent | openvpn/ssl/protostack.hpp:154-162 | the `net_send` calls of the retransmit loop; `ResentSound`, `ResentComplete` and `ResentAscending` state that exactly the due entries are sent, in id order |
| Pipeline.ResentSound | openvpn/ssl/protostack.hpp:157-159 | only entries whose own deadline has elapsed are re-sent, with their original id and packet |
| Pipeline.ResentComplete | openvpn/ssl/protostack.hpp:157-159 | every due entry is re-sent |
| Pipeline.ResentAscending | openvpn/ssl/protostack.hpp:154 | re-sent packets go out in ascending id order |
| Pipeline.RetransmitFires | openvpn/ssl/protostack.hpp:152 | the deadline `update_retransmit` sets is reached at a later time t exactly when some unacknowledged entry is due by t |
| Reliable.ReadyRetransmit | openvpn/ssl/protostack.hpp:157 | `ready_retransmit(now)`: an unacknowledged entry whose deadline has been reached |
| Reliable.Refresh | openvpn/ssl/protostack.hpp:157-160 | `reset_retransmit` on a due entry gives it deadline now + rto; an entry that is not due is unchanged |
| Reliable.Earliest | openvpn/ssl/protostack.hpp:366 | none exactly when no entry is unacknowledged; otherwise the least deadline of an unacknowledged entry, attained by one |
| Reliable.SendWindow.TailId | openvpn/ssl/protostack.hpp:154 | `tail_id()`: the id after the last outstanding entry, which `Send` allocates (261, 287) |
| Reliable.SendWindow.Ready | openvpn/ssl/protostack.hpp:259 | `rel_send.ready()` (also at 285): fewer than `span` entries are outstanding, so `Send` may be called |
| Reliable.SendWindow.Send | openvpn/ssl/protostack.hpp:261 | `rel_send.send` appends one entry with id `tail_id`, the packet and a fresh deadline, and keeps the window valid |
| Reliable.SendWindow.Purge | openvpn/ssl/protostack.hpp:200-206 | drops only acknowledged head entries, keeping the rest as a suffix |
| Reliable.SendWindow.Ack | openvpn/ssl/protostack.hpp:200-206 | an ACK keeps the window valid, keeps `tail_id` and never moves `head_id` back |
| Reliable.SendWindow.AckAll | openvpn/ssl/protostack.hpp:200-206 | ACKing a list of ids keeps the window valid with the same `tail_id`; what it retires is stated by `AckAllRetires` |
| Reliable.AckRetires | openvpn/ssl/protostack.hpp:200-206 | after an ACK no unacknowledged entry carries that id, no entry is invented, and every unacknowledged entry with another id survives |
| Reliable.AckAllRetires | openvpn/ssl/protostack.hpp:200-206 | after ACKing a list of ids, no unacknowledged entry carries an id from the list; every entry of the result that is unacknowledged or has an id outside the list was already in the window; every unacknowledged entry whose id is not in the list survives |
| Reliable.SendWindow.UntilRetransmit | openvpn/ssl/protostack.hpp:366 | infinite exactly when nothing is unacknowledged; otherwise the least time until an unacknowledged entry is due |
| Reliable.EmptySendWindow | openvpn/ssl/protostack.hpp:76 | the constructor's send window is valid and has no deadline |
| Reliable.RecvWindow.Ready | openvpn/ssl/protostack.hpp:321 | `rel_recv.ready()`: the packet at the cursor has arrived |
| Reliable.RecvWindow.NextSequenced | openvpn/ssl/protostack.hpp:323 | `next_sequenced()`: the packet at the cursor, defined only when `Ready` holds |
| Reliable.RecvWindow.Receive | openvpn/ssl/protostack.hpp:200-206 | the packet is stored at its id, every other slot is kept, and the cursor does not move |
| Reliable.RecvWindow.Advance | openvpn/ssl/protostack.hpp:333 | the cursor moves on by one and one slot is disposed of |
| Reliable.RecvWindow.AdvanceKeeps | openvpn/ssl/protostack.hpp:333 | `advance` disposes of the head slot alone; every other slot is kept as it was |
| Reliable.EmptyRecvWindow | openvpn/ssl/protostack.hpp:75 | the constructor's receive window is valid and has nothing ready |
| Collaborators.WriteAnswer | openvpn/ssl/protostack.hpp:244-245 | the answer of the i-th `write_cleartext_unbuffered`, SHOULD_RETRY once the script is exhausted |
| Collaborators.Encapsulates | openvpn/ssl/protostack.hpp:293 | `encapsulate(id, packet)` (also at 266) returns normally exactly when the pair is not among those it throws on |
| Collaborators.Take | openvpn/ssl/protostack.hpp:244 | the bytes an SSL write reports as written are a prefix of the buffer, the whole buffer once the count reaches its size |
| Collaborators.Decapsulate | openvpn/ssl/protostack.hpp:200-206 | rejects exactly the inauthentic datagrams and then touches nothing; otherwise applies the ACKs to the send window, records the sequence id for acknowledgement, and queues the packet exactly when its id lies in the receive window |
| Collaborators.GenerateAck | openvpn/ssl/protostack.hpp:208-210 | one standalone ACK of 1 to `max_ack_list` ids, which leave the front of the pending list |
| Base.Due | openvpn/ssl/protostack.hpp:152 | the retransmit gate `*now >= next_retransmit_`, which the infinite time never passes |
| Base.Fatal | openvpn/ssl/protostack.hpp:248-253 | the failures the stack catches, records and answers by invalidating itself: SSL read/write failures and encapsulation failures; decapsulate, handshake and `write_ciphertext` failures propagate untouched |
| Base.IsFatal | openvpn/ssl/protostack.hpp:268-273 | a status is one of those caught failures; `FatalTrailShape` states what it leaves in the trace |
| Base.Add | openvpn/ssl/protostack.hpp:366 | `now + d` is infinite exactly when d is, and otherwise lies d ticks after now |
| Base.TagOf | openvpn/ssl/protostack.hpp:250-251 | SSL failures are tagged `SSL_ERROR` and encapsulation failures `ENCAPSULATION_ERROR` |

## Left out

- The SSL engine is not modelled. The SSL object is a script of its answers. Write answers,
  ready ciphertext, `write_ciphertext` outcomes and read answers are consumed in call order. The
  handshake outcome is a single answer, given on every call to `start_handshake` and never
  consumed.
- Ciphertext that the SSL object produces later is not modelled. `read_ciphertext_ready()` (259)
  holds while the script of ready ciphertext is non-empty, and that script only shrinks. So
  once a `flush` finds no ciphertext ready, no later call finds any. In the code, a later
  `write_ciphertext` or handshake step can make ciphertext ready again.
- Exceptions from `read_ciphertext`, `read_ciphertext_ready` and `write_ciphertext_ready` are not
  modelled. In the code they would propagate without invalidating the session.
- `relsend.hpp`, `relrecv.hpp` and `relack.hpp` are not part of this model. The windows are the
  minimal models above: ids do not wrap, there are no selective-ACK algorithms, and the pending
  ACKs are an ordered list.
- The wire format of `encapsulate`, `decapsulate` and `generate_ack` is not modelled, and neither
  are ACKs piggy-backed onto encapsulated packets. `encapsulate` is reduced to the set of
  (id, packet) pairs on which it throws. `decapsulate` is reduced to the contract its comment
  states (200-206), plus two assumptions the comment does not state: a `decapsulate` that
  throws leaves `rel_send`, `rel_recv` and `xmit_acks` untouched, and a packet is queued in
  `rel_recv` exactly when its id lies in the receive window.
- `Frame::prepare`, buffer sizing, `to_app_buf` reuse and reference counting are not modelled.
  Buffers are immutable byte sequences.
- Exceptions from `generate_ack` and `Frame::prepare` inside `send_pending_acks` (138-141) are not
  modelled. In the code they would propagate uncaught. `SendPendingAcks` cannot fail.
- ProtoStack.ProtoStackBase.constructor: requires `maxAckList > 0`, which the code (61-77) does
  not check. With 0, `generate_ack` would take no id from `xmit_acks`, so the loop of
  `send_pending_acks` (136-145) would never end.
- `ProtoStats` is not modelled beyond the tag recorded in the trace.
- Exceptions thrown by the callbacks `net_send`, `app_recv`, `raw_recv` and `invalidate_callback`
  are not modelled. Actual network I/O is not modelled either.
- A callback during `start_handshake`'s `up_sequenced` that calls `flush` is not modelled.
  `up_sequenced` there runs with the reentry level at zero, so such a nested `flush` would run in
  the code. `StartHandshake` passes `reenter = false`.
- Callbacks calling back into entry points other than `flush` are not modelled.
- The loops run on local copies of the queues, windows and SSL script, which are then written back
  to the fields. The SSL object's ready ciphertext is read as a whole list (`SslPackets`) and
  consumed as far as the loop took it.
- Time is a natural number plus an infinite value. The clock is a `now` parameter.
- Three behaviours of the code that a reader might not expect are modelled as written:
  - A `write_cleartext_unbuffered` that returns anything but SHOULD_RETRY pops the whole front
    buffer, whatever byte count it reports. No partially written remainder stays queued
    (244-255).
  - Exceptions from the SSL handshake (86) and from `write_ciphertext` (329) are not caught. They
    propagate without invalidating the session or recording a statistic (`HandshakeFailure`,
    `IntakeFailure`).
  - `invalidate()` calls `invalidate_callback` on every call (183-187), not once per session.
    The pipelines reach it only while not yet invalidated.
