/**
 * ProtoStackBase: the orchestrator that pushes application data through the
 * SSL object, the derived layer's encapsulation and the reliable send window
 * to the network, and inbound datagrams back up through the receive window
 * and the SSL object to the application.
 *
 * The callbacks the stack makes (net_send, app_recv, raw_recv, stats->error,
 * invalidate_callback, the buffers write_ciphertext accepted and the bytes
 * write_cleartext_unbuffered reports as written) are recorded in the ghost
 * trace. An exception leaving an entry point is the returned
 * Status.
 */
module ProtoStack {
  import opened Base
  import opened Reliable
  import opened Collaborators
  import opened Pipeline

  class ProtoStackBase {
    /** The reliability window size (span). */
    const span: nat
    /** How many ids one standalone ACK carries at most (max_ack_list). */
    const maxAckList: nat
    /** The retransmission timeout the send window applies to a sent message. */
    const rto: nat
    /** Whether a ProtoStats object is attached. */
    const hasStats: bool
    /** The (id, packet) pairs for which the derived layer's encapsulate throws. */
    const encapFailures: EncapFailures

    var invalidated: bool
    var sslStarted: bool
    var reentryLevel: nat
    var nextRetransmitAt: Time
    var appWriteQueue: seq<Buffer>
    var rawWriteQueue: seq<Packet>
    var relSend: SendWindow
    var relRecv: RecvWindow
    var xmitAcks: seq<nat>
    var ssl: SslSession
    ghost var trace: seq<Event>

    /** The send window is well formed and has the configured span. */
    ghost predicate SendValid()
      reads this`relSend
    {
      relSend.Valid() && relSend.span == span
    }

    /** The receive window is well formed and has the configured span. */
    ghost predicate RecvValid()
      reads this`relRecv
    {
      relRecv.Valid() && relRecv.span == span
    }

    /** The object invariant every public entry point keeps. */
    ghost predicate Valid()
      reads this`relSend, this`relRecv
    {
      SendValid() && RecvValid() && maxAckList > 0
    }

    constructor(span: nat, maxAckList: nat, rto: nat, hasStats: bool,
                encapFailures: EncapFailures, session: SslSession)
      requires maxAckList > 0
      ensures Valid()
      ensures this.span == span && this.maxAckList == maxAckList && this.rto == rto
      ensures this.hasStats == hasStats && this.encapFailures == encapFailures && ssl == session
      ensures !invalidated && !sslStarted && reentryLevel == 0 && nextRetransmitAt == Never
      ensures appWriteQueue == [] && rawWriteQueue == [] && xmitAcks == [] && trace == []
      ensures relSend == EmptySendWindow(span) && relRecv == EmptyRecvWindow(span)
    {
      this.span := span;
      this.maxAckList := maxAckList;
      this.rto := rto;
      this.hasStats := hasStats;
      this.encapFailures := encapFailures;
      ssl := session;
      invalidated := false;
      sslStarted := false;
      reentryLevel := 0;
      nextRetransmitAt := Never;
      appWriteQueue := [];
      rawWriteQueue := [];
      relSend := EmptySendWindow(span);
      relRecv := EmptyRecvWindow(span);
      xmitAcks := [];
      trace := [];
    }

    /* ---------- public entry points ---------- */

    /** start_handshake: a failing SSL handshake propagates and leaves the
        handshake not started; otherwise the packets already queued are
        delivered. */
    method StartHandshake(now: nat) returns (st: Status)
      requires Valid()
      modifies this`sslStarted, this`relRecv, this`ssl, this`trace, this`invalidated,
               this`rawWriteQueue, this`appWriteQueue, this`relSend, this`nextRetransmitAt
      ensures Valid()
      ensures old(invalidated) ==> unchanged(this) && st == Done
      ensures !old(invalidated) && old(ssl).handshake == Failed ==> unchanged(this) && st == Thrown(HandshakeFailure)
      ensures !old(invalidated) && old(ssl).handshake == Succeeded ==>
        var u := UpSequencedModel(old(relRecv), old(ssl), true);
        && sslStarted && relRecv == u.recv && ssl == u.ssl && st == u.status
        && trace == old(trace) + u.events + FatalTrail(hasStats, u.status)
        && invalidated == IsFatal(u.status)
      ensures unchanged(this`rawWriteQueue, this`appWriteQueue, this`relSend, this`nextRetransmitAt)
    {
      st := Done;
      if !invalidated {
        if ssl.handshake == Failed {
          return Thrown(HandshakeFailure);
        }
        sslStarted := true;
        st := UpSequenced(now, false);
      }
    }

    /** net_recv: an inbound datagram goes up the stack unless invalidated. */
    method NetRecv(pkt: Inbound, now: nat, reenter: bool) returns (st: Status)
      requires Valid()
      modifies this`relRecv, this`ssl, this`trace, this`invalidated, this`relSend, this`xmitAcks,
               this`rawWriteQueue, this`appWriteQueue, this`nextRetransmitAt, this`reentryLevel
      ensures Valid()
      ensures old(invalidated) ==> unchanged(this) && st == Done
      ensures !old(invalidated) ==>
        var n := NetRecvModel(pkt, old(relSend), old(relRecv), old(xmitAcks), old(ssl), sslStarted);
        && relSend == n.send && relRecv == n.recv && xmitAcks == n.acks && ssl == n.ssl && st == n.status
        && trace == old(trace) + n.events + FatalTrail(hasStats, n.status)
        && invalidated == IsFatal(n.status)
        && rawWriteQueue == old(rawWriteQueue) && appWriteQueue == old(appWriteQueue)
        && nextRetransmitAt == old(nextRetransmitAt) && reentryLevel == old(reentryLevel)
    {
      st := Done;
      if !invalidated {
        st := UpStack(pkt, now, reenter);
      }
    }

    /** app_send: the buffer joins the back of the cleartext queue. */
    method AppSend(buf: Buffer)
      modifies this`appWriteQueue
      ensures appWriteQueue == if old(invalidated) then old(appWriteQueue) else old(appWriteQueue) + [buf]
    {
      if !invalidated {
        appWriteQueue := appWriteQueue + [buf];
      }
    }

    /** raw_send: the packet joins the back of the raw queue. */
    method RawSend(pkt: Packet)
      modifies this`rawWriteQueue
      ensures rawWriteQueue == if old(invalidated) then old(rawWriteQueue) else old(rawWriteQueue) + [pkt]
    {
      if !invalidated {
        rawWriteQueue := rawWriteQueue + [pkt];
      }
    }

    /**
     * flush: a no-op once invalidated or while up_stack is on the call stack;
     * otherwise the two down pipelines, then the retransmit deadline, which
     * is left alone when a pipeline threw.
     */
    method Flush(now: nat) returns (st: Status)
      requires SendValid()
      modifies this`rawWriteQueue, this`appWriteQueue, this`relSend, this`ssl, this`trace,
               this`invalidated, this`nextRetransmitAt
      ensures SendValid()
      ensures old(invalidated) || old(reentryLevel) > 0 ==> unchanged(this) && st == Done
      ensures !old(invalidated) && old(reentryLevel) == 0 ==>
        var f := FlushModel(old(rawWriteQueue), old(appWriteQueue), old(ssl), old(relSend), sslStarted,
                            now, rto, encapFailures);
        && rawWriteQueue == f.raw && appWriteQueue == f.app && ssl == f.ssl && relSend == f.window
        && st == f.status
        && trace == old(trace) + f.events + FatalTrail(hasStats, f.status)
        && invalidated == IsFatal(f.status)
        && nextRetransmitAt == if f.status == Done then Add(now, f.window.UntilRetransmit(now)) else old(nextRetransmitAt)
    {
      st := Done;
      if !invalidated && reentryLevel == 0 {
        st := DownStacks(now);
        if st == Done {
          UpdateRetransmit(now);
        }
      }
    }

    /** The two down stacks flush runs, raw first; the app stack only when the raw one did not throw. */
    method DownStacks(now: nat) returns (st: Status)
      requires SendValid()
      modifies this`rawWriteQueue, this`appWriteQueue, this`relSend, this`ssl, this`trace, this`invalidated
      ensures SendValid()
      ensures var f := FlushModel(old(rawWriteQueue), old(appWriteQueue), old(ssl), old(relSend), sslStarted,
                                  now, rto, encapFailures);
        && rawWriteQueue == f.raw && appWriteQueue == f.app && ssl == f.ssl && relSend == f.window
        && st == f.status
        && trace == old(trace) + f.events + FatalTrail(hasStats, f.status)
        && invalidated == (old(invalidated) || IsFatal(f.status))
    {
      ghost var d := DrainToWindow(rawWriteQueue, relSend, now, rto, encapFailures);
      st := DownStackRaw(now);
      if st == Done {
        ghost var a := DownApp(appWriteQueue, ssl, relSend, sslStarted, now, rto, encapFailures);
        AppendNil(old(trace) + d.sent);
        AppendAssoc(old(trace), d.sent, a.events);
        st := DownStackApp(now);
      }
    }

    /** send_pending_acks: standalone ACKs until no id is pending. */
    method SendPendingAcks()
      requires Valid()
      modifies this`xmitAcks, this`trace
      ensures old(invalidated) ==> unchanged(this)
      ensures !old(invalidated) ==> xmitAcks == [] && trace == old(trace) + AckBatches(old(xmitAcks), maxAckList)
    {
      if !invalidated {
        ghost var sent: seq<Event> := [];
        while xmitAcks != []
          invariant AckBatches(old(xmitAcks), maxAckList) == sent + AckBatches(xmitAcks, maxAckList)
          invariant trace == old(trace) + sent
          decreases |xmitAcks|
        {
          var (ack, rest) := GenerateAck(xmitAcks, maxAckList);
          trace := trace + [NetSend(ack)];
          sent := sent + [NetSend(ack)];
          xmitAcks := rest;
        }
      }
    }

    /**
     * retransmit: once the stored deadline is reached, walk the send window
     * from head_id to tail_id, re-sending each entry that is due and giving
     * it a fresh deadline, then recompute the deadline.
     */
    method Retransmit(now: nat)
      requires SendValid()
      modifies this`relSend, this`trace, this`nextRetransmitAt
      ensures SendValid()
      ensures old(invalidated) || !Due(now, old(nextRetransmitAt)) ==> unchanged(this)
      ensures !old(invalidated) && Due(now, old(nextRetransmitAt)) ==>
        && relSend == old(relSend).(entries := Resend(old(relSend).entries, now, rto))
        && trace == old(trace) + Resent(old(relSend).entries, now)
        && nextRetransmitAt == Add(now, relSend.UntilRetransmit(now))
    {
      if !invalidated && Due(now, nextRetransmitAt) {
        var w;
        ghost var sent;
        w, sent := ResendDue(relSend, now);
        relSend, trace := w, trace + sent;
        UpdateRetransmit(now);
      }
    }

    /** retransmit's walk over the send window w0, from head_id to tail_id. */
    method ResendDue(w0: SendWindow, now: nat) returns (w: SendWindow, ghost sent: seq<Event>)
      ensures w == w0.(entries := Resend(w0.entries, now, rto))
      ensures sent == Resent(w0.entries, now)
    {
      w := w0;
      ghost var es := w0.entries;
      sent := [];
      var i := w.head;
      while i < w.TailId()
        invariant w.head <= i <= w.TailId()
        invariant w == w0.(entries := w.entries) && |w.entries| == |es|
        invariant forall j :: 0 <= j < i - w.head ==> w.entries[j] == Refresh(es[j], now, rto)
        invariant forall j :: i - w.head <= j < |es| ==> w.entries[j] == es[j]
        invariant sent == Resent(es[..i - w.head], now)
        decreases w.TailId() - i
      {
        var k := i - w.head;
        var m := w.entries[k];
        assert es[..k + 1] == es[..k] + [m];
        if ReadyRetransmit(m, now) {
          sent := sent + [NetSend(Sequenced(m.id, m.body))];
          w := w.(entries := w.entries[k := Refresh(m, now, rto)]);
        }
        i := i + 1;
      }
      assert es[..|es|] == es;
    }

    /** next_retransmit(): the infinite time once invalidated. */
    function NextRetransmit(): (t: Time)
      reads this
      ensures invalidated ==> t == Never
      ensures !invalidated ==> t == nextRetransmitAt
    {
      if invalidated then Never else nextRetransmitAt
    }

    /** invalidate: latch the session dead and notify the derived layer. */
    method Invalidate()
      modifies this`invalidated, this`trace
      ensures invalidated && trace == old(trace) + [InvalidateCallback]
    {
      invalidated := true;
      trace := trace + [InvalidateCallback];
    }

    /* ---------- private pipelines ---------- */

    /** The catch blocks: record the error tag when statistics are kept, then invalidate. */
    method CatchFatal(f: Failure)
      requires Fatal(f)
      modifies this`invalidated, this`trace
      ensures invalidated && trace == old(trace) + FatalTrail(hasStats, Thrown(f))
    {
      if hasStats {
        trace := trace + [Stat(TagOf(f))];
      }
      Invalidate();
    }

    /** down_stack_raw */
    method DownStackRaw(now: nat) returns (st: Status)
      requires SendValid()
      modifies this`rawWriteQueue, this`relSend, this`trace, this`invalidated
      ensures SendValid()
      ensures var d := DrainToWindow(old(rawWriteQueue), old(relSend), now, rto, encapFailures);
        && rawWriteQueue == d.queue && relSend == d.window
        && st == (if d.failed then Thrown(EncapsulationFailure) else Done)
        && trace == old(trace) + d.sent + FatalTrail(hasStats, st)
        && invalidated == (old(invalidated) || d.failed)
    {
      var taken, q, w, failed;
      ghost var sent;
      taken, q, w, sent, failed := DrainQueue(rawWriteQueue, relSend, now);
      rawWriteQueue, relSend, trace := q, w, trace + sent;
      st := Done;
      if failed {
        st := Thrown(EncapsulationFailure);
        CatchFatal(EncapsulationFailure);
      }
    }

    /**
     * The loop down_stack_raw and down_stack_app's ciphertext loop share,
     * run on a packet queue and the send window: while packets are queued
     * and the window is ready, send the front packet into the window,
     * encapsulate it and pass it to net_send, stopping after a packet whose
     * encapsulation throws.
     */
    method DrainQueue(q0: seq<Packet>, w0: SendWindow, now: nat)
      returns (taken: nat, q: seq<Packet>, w: SendWindow, ghost sent: seq<Event>, failed: bool)
      requires w0.Valid()
      ensures DrainToWindow(q0, w0, now, rto, encapFailures) == Drained(taken, q, w, sent, failed)
    {
      ghost var goal := DrainToWindow(q0, w0, now, rto, encapFailures);
      taken, q, w, sent, failed := 0, q0, w0, [], false;
      while q != [] && w.Ready()
        invariant w.Valid() && !failed
        invariant var d := DrainToWindow(q, w, now, rto, encapFailures);
          goal == Drained(taken + d.taken, d.queue, d.window, sent + d.sent, d.failed)
        decreases |q|
      {
        var id := w.TailId();
        var pkt := q[0];
        q, w := q[1..], w.Send(now, rto, pkt);
        taken := taken + 1;
        if !Encapsulates(encapFailures, id, pkt) {
          assert goal == Drained(taken, q, w, sent, true);
          failed := true;
          break;
        }
        ghost var rest := DrainToWindow(q, w, now, rto, encapFailures);
        AppendAssoc(sent, [NetSend(Sequenced(id, pkt))], rest.sent);
        sent := sent + [NetSend(Sequenced(id, pkt))];
      }
      assert goal == Drained(taken, q, w, sent, failed);
    }

    /** down_stack_app */
    method DownStackApp(now: nat) returns (st: Status)
      requires SendValid()
      modifies this`appWriteQueue, this`ssl, this`relSend, this`trace, this`invalidated
      ensures SendValid()
      ensures var a := DownApp(old(appWriteQueue), old(ssl), old(relSend), sslStarted, now, rto, encapFailures);
        && appWriteQueue == a.queue && ssl == a.ssl && relSend == a.window && st == a.status
        && trace == old(trace) + a.events + FatalTrail(hasStats, st)
        && invalidated == (old(invalidated) || IsFatal(st))
    {
      st := Done;
      if !sslStarted {
        return;
      }
      ghost var p := PushCleartext(appWriteQueue, ssl.writeReplies);
      ghost var d := DrainToWindow(SslPackets(ssl.ciphertextOut), relSend, now, rto, encapFailures);
      var failed := PushAppCleartext();
      if failed {
        st := Thrown(SslFailure);
        CatchFatal(SslFailure);
      } else {
        failed := EncapsulateCiphertext(now);
        AppendAssoc(old(trace), p.events, d.sent);
        if failed {
          st := Thrown(EncapsulationFailure);
          CatchFatal(EncapsulationFailure);
        }
      }
    }

    /** down_stack_app's first loop: app-layer cleartext into the SSL object. */
    method PushAppCleartext() returns (failed: bool)
      modifies this`appWriteQueue, this`ssl, this`trace
      ensures var p := PushCleartext(old(appWriteQueue), old(ssl).writeReplies);
        && appWriteQueue == p.queue && ssl == old(ssl).(writeReplies := p.replies)
        && trace == old(trace) + p.events && failed == p.failed
    {
      ghost var goal := PushCleartext(appWriteQueue, ssl.writeReplies);
      ghost var written: seq<Event> := [];
      var q, replies := appWriteQueue, ssl.writeReplies;
      failed := false;
      while q != []
        invariant !failed && unchanged(this)
        invariant var p := PushCleartext(q, replies);
          goal == Pushed(p.queue, p.replies, written + p.events, p.failed)
        decreases |q|
      {
        var reply := WriteAnswer(replies, 0);
        replies := if replies == [] then [] else replies[1..];
        match reply
        case WriteRetry =>
          assert goal == Pushed(q, replies, written, false);
          break;
        case WriteFail =>
          assert goal == Pushed(q, replies, written, true);
          failed := true;
          break;
        case Written(n) =>
          ghost var rest := PushCleartext(q[1..], replies);
          AppendAssoc(written, [CleartextToSsl(Take(q[0], n))], rest.events);
          written := written + [CleartextToSsl(Take(q[0], n))];
          q := q[1..];
      }
      assert goal == Pushed(q, replies, written, failed);
      appWriteQueue, ssl := q, ssl.(writeReplies := replies);
      trace := trace + written;
    }

    /** down_stack_app's second loop: SSL ciphertext into the send window and out. */
    method EncapsulateCiphertext(now: nat) returns (failed: bool)
      requires SendValid()
      modifies this`ssl, this`relSend, this`trace
      ensures SendValid()
      ensures var d := DrainToWindow(SslPackets(old(ssl).ciphertextOut), old(relSend), now, rto, encapFailures);
        && relSend == d.window && ssl == old(ssl).(ciphertextOut := old(ssl).ciphertextOut[d.taken..])
        && trace == old(trace) + d.sent && failed == d.failed
    {
      var taken, rest, w;
      ghost var sent;
      taken, rest, w, sent, failed := DrainQueue(SslPackets(ssl.ciphertextOut), relSend, now);
      ssl, relSend, trace := ssl.(ciphertextOut := ssl.ciphertextOut[taken..]), w, trace + sent;
    }

    /** up_stack: decapsulate with the reentry level raised, restored on every exit. */
    method UpStack(pkt: Inbound, now: nat, reenter: bool) returns (st: Status)
      requires Valid()
      modifies this`relRecv, this`ssl, this`trace, this`invalidated, this`relSend, this`xmitAcks,
               this`rawWriteQueue, this`appWriteQueue, this`nextRetransmitAt, this`reentryLevel
      ensures Valid()
      ensures var n := NetRecvModel(pkt, old(relSend), old(relRecv), old(xmitAcks), old(ssl), sslStarted);
        && relSend == n.send && relRecv == n.recv && xmitAcks == n.acks && ssl == n.ssl && st == n.status
        && trace == old(trace) + n.events + FatalTrail(hasStats, n.status)
        && invalidated == (old(invalidated) || IsFatal(n.status))
        && rawWriteQueue == old(rawWriteQueue) && appWriteQueue == old(appWriteQueue)
        && nextRetransmitAt == old(nextRetransmitAt) && reentryLevel == old(reentryLevel)
    {
      reentryLevel := reentryLevel + 1;
      var d := Decapsulate(pkt, relSend, relRecv, xmitAcks);
      if d.verdict == Rejected {
        reentryLevel := reentryLevel - 1;
        return Thrown(DecapsulationFailure);
      }
      relSend, relRecv, xmitAcks := d.send, d.recv, d.acks;
      st := Done;
      if d.verdict == Queued {
        st := UpSequenced(now, reenter);
      }
      reentryLevel := reentryLevel - 1;
    }

    /**
     * up_sequenced. When reenter holds, app_recv and raw_recv call flush
     * back, as an application callback may; the reentry gate makes those
     * calls no-ops. A write_ciphertext that throws propagates; a
     * read_cleartext that throws is caught, recorded and invalidates.
     */
    method UpSequenced(now: nat, reenter: bool) returns (st: Status)
      requires RecvValid() && SendValid()
      requires reenter ==> reentryLevel > 0
      modifies this`relRecv, this`ssl, this`trace, this`invalidated,
               this`rawWriteQueue, this`appWriteQueue, this`relSend, this`nextRetransmitAt
      ensures RecvValid()
      ensures var u := UpSequencedModel(old(relRecv), old(ssl), sslStarted);
        && relRecv == u.recv && ssl == u.ssl && st == u.status
        && trace == old(trace) + u.events + FatalTrail(hasStats, st)
        && invalidated == (old(invalidated) || IsFatal(st))
      ensures unchanged(this`rawWriteQueue, this`appWriteQueue, this`relSend, this`nextRetransmitAt)
    {
      ghost var d := Deliver(relRecv, sslStarted, ssl.intakeReplies);
      ghost var rd := ReadCleartext(ssl.readReplies);
      var failed := DeliverStage(now, reenter);
      st := Done;
      if failed {
        st := Thrown(IntakeFailure);
      } else if sslStarted {
        AppendAssoc(old(trace), d.events, rd.events);
        st := ReadStage(now, reenter);
      }
    }

    /** up_sequenced's delivery loop applied to the receive window and the
        SSL object. */
    method DeliverStage(now: nat, reenter: bool) returns (failed: bool)
      requires RecvValid() && SendValid()
      requires reenter ==> reentryLevel > 0
      modifies this`relRecv, this`ssl, this`trace, this`invalidated,
               this`rawWriteQueue, this`appWriteQueue, this`relSend, this`nextRetransmitAt
      ensures RecvValid()
      ensures var d := Deliver(old(relRecv), sslStarted, old(ssl).intakeReplies);
        && relRecv == d.recv && ssl == old(ssl).(intakeReplies := d.intake) && failed == d.failed
        && trace == old(trace) + d.events
        && invalidated == old(invalidated)
        && rawWriteQueue == old(rawWriteQueue) && appWriteQueue == old(appWriteQueue)
        && relSend == old(relSend) && nextRetransmitAt == old(nextRetransmitAt)
    {
      var recv, intake;
      ghost var delivered;
      recv, intake, delivered, failed := DeliverSequenced(relRecv, ssl.intakeReplies, sslStarted, now, reenter);
      relRecv, ssl, trace := recv, ssl.(intakeReplies := intake), trace + delivered;
    }

    /** up_sequenced's read loop applied to the SSL object. */
    method ReadStage(now: nat, reenter: bool) returns (st: Status)
      requires SendValid()
      requires reenter ==> reentryLevel > 0
      modifies this`relRecv, this`ssl, this`trace, this`invalidated,
               this`rawWriteQueue, this`appWriteQueue, this`relSend, this`nextRetransmitAt
      ensures var rd := ReadCleartext(old(ssl).readReplies);
        && ssl == old(ssl).(readReplies := rd.replies)
        && st == (if rd.failed then Thrown(SslFailure) else Done)
        && trace == old(trace) + rd.events + FatalTrail(hasStats, st)
        && relRecv == old(relRecv) && invalidated == (old(invalidated) || rd.failed)
      ensures unchanged(this`rawWriteQueue, this`appWriteQueue, this`relSend, this`nextRetransmitAt)
    {
      var replies, failed;
      ghost var read;
      replies, read, failed := ReadToApp(ssl.readReplies, now, reenter);
      ssl, trace := ssl.(readReplies := replies), trace + read;
      st := Done;
      if failed {
        st := Thrown(SslFailure);
        CatchFatal(SslFailure);
      }
    }

    /** A flush made from inside an app_recv or raw_recv callback: up_stack is
        on the call stack, so it changes nothing. */
    method CallbackFlush(now: nat)
      requires SendValid() && reentryLevel > 0
      modifies this`rawWriteQueue, this`appWriteQueue, this`relSend, this`ssl, this`trace,
               this`invalidated, this`nextRetransmitAt
      ensures unchanged(this)
    {
      var _ := Flush(now);
    }

    /**
     * up_sequenced's delivery loop, run on the receive window r0 and the SSL
     * object's write_ciphertext answers: hand in-order packets on while the
     * window has the next one. Its callbacks may call flush back, which
     * changes nothing here.
     */
    method DeliverSequenced(r0: RecvWindow, intake0: seq<Outcome>, started: bool, now: nat, reenter: bool)
      returns (r: RecvWindow, intake: seq<Outcome>, ghost delivered: seq<Event>, failed: bool)
      requires r0.Valid() && SendValid()
      requires reenter ==> reentryLevel > 0
      modifies this`rawWriteQueue, this`appWriteQueue, this`relSend, this`ssl, this`trace,
               this`invalidated, this`nextRetransmitAt
      ensures unchanged(this)
      ensures Deliver(r0, started, intake0) == Delivery(r, intake, delivered, failed)
    {
      r, intake := r0, intake0;
      ghost var goal := Deliver(r, started, intake);
      delivered := [];
      failed := false;
      while r.Ready()
        invariant r.Valid() && !failed
        invariant unchanged(this)
        invariant var d := Deliver(r, started, intake);
          goal == Delivery(d.recv, d.intake, delivered + d.events, d.failed)
        decreases |r.slots|
      {
        var p := r.NextSequenced();
        if p.raw {
          if reenter {
            CallbackFlush(now);
          }
        } else if started {
          if intake != [] && intake[0] == Failed {
            intake := intake[1..];
            assert goal == Delivery(r, intake, delivered, true);
            failed := true;
            break;
          }
          intake := if intake == [] then [] else intake[1..];
        } else {
          assert goal == Delivery(r, intake, delivered, false);
          break;
        }
        ghost var rest := Deliver(r.Advance(), started, intake);
        AppendAssoc(delivered, [Handoff(p)], rest.events);
        delivered := delivered + [Handoff(p)];
        r := r.Advance();
      }
      assert goal == Delivery(r, intake, delivered, failed);
    }

    /**
     * up_sequenced's read loop, run on the SSL object's read_cleartext
     * answers: pass cleartext to app_recv while the object has some, until
     * it answers SHOULD_RETRY or throws. app_recv may call flush back, which
     * changes nothing here.
     */
    method ReadToApp(replies0: seq<ReadReply>, now: nat, reenter: bool)
      returns (replies: seq<ReadReply>, ghost read: seq<Event>, failed: bool)
      requires SendValid()
      requires reenter ==> reentryLevel > 0
      modifies this`rawWriteQueue, this`appWriteQueue, this`relSend, this`ssl, this`trace,
               this`invalidated, this`nextRetransmitAt
      ensures unchanged(this)
      ensures ReadCleartext(replies0) == Readout(replies, read, failed)
    {
      replies := replies0;
      ghost var goal := ReadCleartext(replies);
      read := [];
      failed := false;
      while replies != []
        invariant !failed && unchanged(this)
        invariant var r := ReadCleartext(replies);
          goal == Readout(r.replies, read + r.events, r.failed)
        decreases |replies|
      {
        var reply := replies[0];
        replies := replies[1..];
        match reply
        case ReadFail =>
          assert goal == Readout(replies, read, true);
          failed := true;
          break;
        case ReadRetry =>
          assert goal == Readout(replies, read, false);
          break;
        case Cleartext(b) =>
          ghost var rest := ReadCleartext(replies);
          AppendAssoc(read, [AppRecv(b)], rest.events);
          read := read + [AppRecv(b)];
          if reenter {
            CallbackFlush(now);
          }
      }
      assert goal == Readout(replies, read, failed);
    }

    /** update_retransmit */
    method UpdateRetransmit(now: nat)
      modifies this`nextRetransmitAt
      ensures nextRetransmitAt == Add(now, relSend.UntilRetransmit(now))
    {
      nextRetransmitAt := Add(now, relSend.UntilRetransmit(now));
    }
  }
}
