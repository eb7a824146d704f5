/**
 * The stack's pipelines as functions on values: what each loop of
 * ProtoStackBase computes from the queues, the windows and the SSL object's
 * answers, with lemmas stating what the source promises of each loop.
 */
module Pipeline {
  import opened Base
  import opened Reliable
  import opened Collaborators

  /**
   * What a caught failure leaves behind: the error tag when statistics are
   * kept, then exactly one invalidate_callback; nothing for any other status.
   */
  function FatalTrail(hasStats: bool, st: Status): seq<Event> {
    if !IsFatal(st) then []
    else (if hasStats then [Stat(TagOf(st.failure))] else []) + [InvalidateCallback]
  }

  lemma FatalTrailShape(hasStats: bool, st: Status)
    ensures var t := FatalTrail(hasStats, st);
      && multiset(t)[InvalidateCallback] == (if IsFatal(st) then 1 else 0)
      && (forall tag :: Stat(tag) in t <==> IsFatal(st) && hasStats && tag == TagOf(st.failure))
      && (IsFatal(st) ==> t[|t| - 1] == InvalidateCallback)
  {
  }

  /* ---------- down_stack_app, first loop: cleartext into the SSL object ---------- */

  datatype Pushed = Pushed(queue: seq<Buffer>, replies: seq<WriteReply>, events: seq<Event>, failed: bool)

  /**
   * Feeds the front buffer to write_cleartext_unbuffered until the queue
   * empties, the SSL object answers SHOULD_RETRY (the buffer stays at the
   * front) or throws (the buffer stays too). Any other answer pops the whole
   * buffer, whatever byte count it reports.
   */
  function PushCleartext(q: seq<Buffer>, replies: seq<WriteReply>): (p: Pushed)
    ensures |p.queue| <= |q| && |p.replies| <= |replies|
    decreases |q|
  {
    if q == [] then Pushed(q, replies, [], false)
    else
      var rest := if replies == [] then [] else replies[1..];
      match WriteAnswer(replies, 0)
      case WriteRetry => Pushed(q, rest, [], false)
      case WriteFail => Pushed(q, rest, [], true)
      case Written(n) =>
        var p := PushCleartext(q[1..], rest);
        Pushed(p.queue, p.replies, [CleartextToSsl(Take(q[0], n))] + p.events, p.failed)
  }

  function Min(a: nat, b: nat): nat {
    if a < b then a else b
  }

  /**
   * The cleartext loop is FIFO over whole buffers: one buffer is popped per
   * buffer written and the rest of the queue is left untouched; it stops on
   * the first SHOULD_RETRY or exception, with the buffer it was writing still
   * at the front, or when the queue is empty.
   */
  lemma {:induction false} PushCleartextShape(q: seq<Buffer>, replies: seq<WriteReply>)
    ensures var p := PushCleartext(q, replies);
      var k := |p.events|;
      && k <= |q| && p.queue == q[k..]
      && (p.queue != [] ==> !WriteAnswer(replies, k).Written? && (p.failed <==> WriteAnswer(replies, k) == WriteFail))
      && (p.queue == [] ==> !p.failed)
    decreases |q|
  {
    if q != [] {
      var rest := if replies == [] then [] else replies[1..];
      match WriteAnswer(replies, 0)
      case WriteRetry =>
      case WriteFail =>
      case Written(n) =>
        PushCleartextShape(q[1..], rest);
        var p' := PushCleartext(q[1..], rest);
        var k' := |p'.events|;
        assert q[1..][k'..] == q[k' + 1..];
        assert WriteAnswer(rest, k') == WriteAnswer(replies, k' + 1);
    }
  }

  /** The loop consumes one answer per write it attempts: one per buffer
      popped, plus the answer that stopped it when the queue is not empty. */
  lemma {:induction false} PushCleartextReplies(q: seq<Buffer>, replies: seq<WriteReply>)
    ensures var p := PushCleartext(q, replies);
      var k := |p.events|;
      p.replies == replies[Min(|replies|, if p.queue == [] then k else k + 1)..]
    decreases |q|
  {
    if q != [] {
      var rest := if replies == [] then [] else replies[1..];
      match WriteAnswer(replies, 0)
      case WriteRetry =>
      case WriteFail =>
      case Written(n) =>
        PushCleartextReplies(q[1..], rest);
        var p' := PushCleartext(q[1..], rest);
        var k' := |p'.events|;
        assert rest[Min(|rest|, if p'.queue == [] then k' else k' + 1)..]
            == replies[Min(|replies|, if p'.queue == [] then k' + 1 else k' + 2)..];
    }
  }

  /**
   * Each buffer popped met a byte-count answer: the i-th write is recorded as
   * the prefix of q[i] that the i-th answer reports as written, and the rest
   * of q[i] is dropped with it.
   */
  lemma {:induction false} PushCleartextWrites(q: seq<Buffer>, replies: seq<WriteReply>)
    ensures var p := PushCleartext(q, replies);
      && |p.events| <= |q|
      && (forall i :: 0 <= i < |p.events| ==>
            WriteAnswer(replies, i).Written? && p.events[i] == CleartextToSsl(Take(q[i], WriteAnswer(replies, i).n)))
    decreases |q|
  {
    if q != [] {
      var rest := if replies == [] then [] else replies[1..];
      match WriteAnswer(replies, 0)
      case WriteRetry =>
      case WriteFail =>
      case Written(n) =>
        PushCleartextWrites(q[1..], rest);
        var p := PushCleartext(q, replies);
        var p' := PushCleartext(q[1..], rest);
        assert p.events == [CleartextToSsl(Take(q[0], n))] + p'.events;
        forall i | 1 <= i < |p.events|
          ensures WriteAnswer(replies, i).Written? && p.events[i] == CleartextToSsl(Take(q[i], WriteAnswer(replies, i).n))
        {
          assert p.events[i] == p'.events[i - 1];
          assert q[i] == q[1..][i - 1];
          assert WriteAnswer(rest, i - 1) == WriteAnswer(replies, i);
        }
    }
  }

  /* ---------- down_stack_raw and down_stack_app's second loop ---------- */

  datatype Drained = Drained(taken: nat, queue: seq<Packet>, window: SendWindow, sent: seq<Event>, failed: bool)

  /**
   * While packets are queued and the send window is ready: take the front
   * packet, allocate the next send-window id for it, encapsulate it with that
   * id (encap says whether the derived layer succeeds) and hand it to
   * net_send. A failing encapsulation stops the loop after the packet has
   * left the queue and entered the window.
   */
  function DrainToWindow(q: seq<Packet>, w: SendWindow, now: nat, rto: nat, encap: EncapFailures): (d: Drained)
    requires w.Valid()
    ensures d.window.Valid() && d.window.span == w.span && d.window.head == w.head
    ensures d.taken <= |q| && d.queue == q[d.taken..]
    ensures |d.window.entries| == |w.entries| + d.taken
    decreases |q|
  {
    if q == [] || !w.Ready() then Drained(0, q, w, [], false)
    else
      var id := w.TailId();
      var w' := w.Send(now, rto, q[0]);
      if !Encapsulates(encap, id, q[0]) then Drained(1, q[1..], w', [], true)
      else
        var d := DrainToWindow(q[1..], w', now, rto, encap);
        Drained(d.taken + 1, d.queue, d.window, [NetSend(Sequenced(id, q[0]))] + d.sent, d.failed)
  }

  /**
   * The draining loop stops exactly when the queue is empty or the window is
   * full, or at a failing encapsulation; it never takes more packets than the
   * window has room for.
   */
  lemma {:induction false} DrainToWindowStops(q: seq<Packet>, w: SendWindow, now: nat, rto: nat, encap: EncapFailures)
    requires w.Valid()
    ensures var d := DrainToWindow(q, w, now, rto, encap);
      && d.taken <= w.span - |w.entries|
      && (!d.failed ==> d.queue == [] || !d.window.Ready())
      && (d.failed ==> d.taken > 0)
    decreases |q|
  {
    if q != [] && w.Ready() && Encapsulates(encap, w.TailId(), q[0]) {
      DrainToWindowStops(q[1..], w.Send(now, rto, q[0]), now, rto, encap);
    }
  }

  /**
   * Packets are taken from the front in FIFO order: the k packets taken are
   * appended to the window, in order, with the consecutive ids that follow
   * its tail, each with a fresh retransmit deadline.
   */
  lemma {:induction false} DrainToWindowEntries(q: seq<Packet>, w: SendWindow, now: nat, rto: nat, encap: EncapFailures)
    requires w.Valid()
    ensures var d := DrainToWindow(q, w, now, rto, encap);
      && (forall i :: 0 <= i < |w.entries| ==> d.window.entries[i] == w.entries[i])
      && (forall i :: 0 <= i < d.taken ==>
            d.window.entries[|w.entries| + i] == SendEntry(w.TailId() + i, q[i], true, now + rto))
    decreases |q|
  {
    if q != [] && w.Ready() {
      var w' := w.Send(now, rto, q[0]);
      if Encapsulates(encap, w.TailId(), q[0]) {
        DrainToWindowEntries(q[1..], w', now, rto, encap);
        var d := DrainToWindow(q, w, now, rto, encap);
        var d' := DrainToWindow(q[1..], w', now, rto, encap);
        assert d.window == d'.window && d.taken == d'.taken + 1;
        forall i | 0 <= i < |w.entries|
          ensures d.window.entries[i] == w.entries[i]
        {
          assert w'.entries[i] == w.entries[i];
        }
        forall i | 0 <= i < d.taken
          ensures d.window.entries[|w.entries| + i] == SendEntry(w.TailId() + i, q[i], true, now + rto)
        {
          if i == 0 {
            assert d.window.entries[|w.entries|] == w'.entries[|w.entries|];
          } else {
            assert d.window.entries[|w.entries| + i] == d'.window.entries[|w'.entries| + (i - 1)];
            assert q[i] == q[1..][i - 1];
          }
        }
      }
    }
  }

  /**
   * A packet whose encapsulation fails is the last one taken, and it is not
   * handed to net_send; every packet taken before it is.
   */
  lemma {:induction false} DrainToWindowFailure(q: seq<Packet>, w: SendWindow, now: nat, rto: nat, encap: EncapFailures)
    requires w.Valid()
    ensures var d := DrainToWindow(q, w, now, rto, encap);
      && |d.sent| == (if d.failed then d.taken - 1 else d.taken)
      && (d.failed ==> d.taken > 0 && !Encapsulates(encap, w.TailId() + d.taken - 1, q[d.taken - 1]))
    decreases |q|
  {
    if q != [] && w.Ready() {
      var w' := w.Send(now, rto, q[0]);
      if Encapsulates(encap, w.TailId(), q[0]) {
        DrainToWindowFailure(q[1..], w', now, rto, encap);
        var d := DrainToWindow(q, w, now, rto, encap);
        var d' := DrainToWindow(q[1..], w', now, rto, encap);
        if d.failed {
          assert q[d.taken - 1] == q[1..][d'.taken - 1];
        }
      }
    }
  }

  /** sent[i] is packet q[i] encapsulated under id base + i, for every i. */
  ghost predicate SentInOrder(sent: seq<Event>, q: seq<Packet>, base: nat, encap: EncapFailures) {
    |sent| <= |q| &&
    forall i {:trigger sent[i]} :: 0 <= i < |sent| ==>
      Encapsulates(encap, base + i, q[i]) && sent[i] == NetSend(Sequenced(base + i, q[i]))
  }

  /** Sending q[0] under base, then the run for the rest of q from base + 1,
      is the run for q from base. */
  lemma SentInOrderCons(sent: seq<Event>, q: seq<Packet>, base: nat, encap: EncapFailures)
    requires q != [] && Encapsulates(encap, base, q[0]) && SentInOrder(sent, q[1..], base + 1, encap)
    ensures SentInOrder([NetSend(Sequenced(base, q[0]))] + sent, q, base, encap)
  {
    var all := [NetSend(Sequenced(base, q[0]))] + sent;
    forall i | 0 <= i < |all|
      ensures Encapsulates(encap, base + i, q[i]) && all[i] == NetSend(Sequenced(base + i, q[i]))
    {
      if i > 0 {
        var j := i - 1;
        assert sent[j] == NetSend(Sequenced(base + 1 + j, q[1..][j])) && Encapsulates(encap, base + 1 + j, q[1..][j]);
        assert all[i] == sent[j] && q[i] == q[1..][j] && base + i == base + 1 + j;
      }
    }
    assert SentInOrder(all, q, base, encap);
  }

  /**
   * Each packet taken and successfully encapsulated is handed to net_send
   * under the id it was allocated, in queue order.
   */
  lemma {:induction false} DrainToWindowSent(q: seq<Packet>, w: SendWindow, now: nat, rto: nat, encap: EncapFailures)
    requires w.Valid()
    ensures SentInOrder(DrainToWindow(q, w, now, rto, encap).sent, q, w.TailId(), encap)
    decreases |q|
  {
    if q != [] && w.Ready() {
      var w' := w.Send(now, rto, q[0]);
      if Encapsulates(encap, w.TailId(), q[0]) {
        DrainToWindowSent(q[1..], w', now, rto, encap);
        SentInOrderCons(DrainToWindow(q[1..], w', now, rto, encap).sent, q, w.TailId(), encap);
      }
    }
  }

  /** The SSL ciphertext units wrapped as non-raw packets (PACKET(read_ciphertext())). */
  function SslPackets(ct: seq<Buffer>): (ps: seq<Packet>)
    ensures |ps| == |ct|
    ensures forall i :: 0 <= i < |ct| ==> ps[i] == Packet(false, ct[i])
  {
    seq(|ct|, i requires 0 <= i < |ct| => Packet(false, ct[i]))
  }

  datatype AppDown = AppDown(queue: seq<Buffer>, ssl: SslSession, window: SendWindow, events: seq<Event>, status: Status)

  /**
   * down_stack_app: nothing before the handshake has started; afterwards the
   * cleartext loop, then (unless the SSL object threw) the ciphertext loop
   * into the send window.
   */
  function DownApp(q: seq<Buffer>, ssl: SslSession, w: SendWindow, started: bool,
                   now: nat, rto: nat, encap: EncapFailures): (a: AppDown)
    requires w.Valid()
    ensures a.window.Valid() && a.window.span == w.span
    ensures !started ==> a.queue == q && a.ssl == ssl && a.window == w && a.events == [] && a.status == Done
    ensures a.status == Done || a.status == Thrown(SslFailure) || a.status == Thrown(EncapsulationFailure)
  {
    if !started then AppDown(q, ssl, w, [], Done)
    else
      var p := PushCleartext(q, ssl.writeReplies);
      var ssl1 := ssl.(writeReplies := p.replies);
      if p.failed then AppDown(p.queue, ssl1, w, p.events, Thrown(SslFailure))
      else
        var ct := ssl.ciphertextOut;
        var d := DrainToWindow(SslPackets(ct), w, now, rto, encap);
        AppDown(p.queue, ssl1.(ciphertextOut := ct[d.taken..]), d.window, p.events + d.sent,
                if d.failed then Thrown(EncapsulationFailure) else Done)
  }

  datatype Flushed = Flushed(raw: seq<Packet>, app: seq<Buffer>, ssl: SslSession, window: SendWindow,
                             events: seq<Event>, status: Status)

  /**
   * The pipelines flush runs: down_stack_raw, then down_stack_app unless
   * down_stack_raw threw.
   */
  function FlushModel(raw: seq<Packet>, app: seq<Buffer>, ssl: SslSession, w: SendWindow, started: bool,
                      now: nat, rto: nat, encap: EncapFailures): (f: Flushed)
    requires w.Valid()
    ensures f.window.Valid() && f.window.span == w.span
    ensures f.status == Done || f.status == Thrown(SslFailure) || f.status == Thrown(EncapsulationFailure)
    ensures f.status == Thrown(SslFailure) ==> started
    ensures !started ==> f.app == app && f.ssl == ssl
    ensures f.status == Done ==> f.raw == [] || !f.window.Ready()
  {
    var d := DrainToWindow(raw, w, now, rto, encap);
    DrainToWindowStops(raw, w, now, rto, encap);
    if d.failed then Flushed(d.queue, app, ssl, d.window, d.sent, Thrown(EncapsulationFailure))
    else
      var a := DownApp(app, ssl, d.window, started, now, rto, encap);
      DownAppKeepsFull(app, ssl, d.window, started, now, rto, encap);
      Flushed(d.queue, a.queue, a.ssl, a.window, d.sent + a.events, a.status)
  }

  /** down_stack_app only adds to the send window: a full window stays full. */
  lemma DownAppKeepsFull(q: seq<Buffer>, ssl: SslSession, w: SendWindow, started: bool,
                         now: nat, rto: nat, encap: EncapFailures)
    requires w.Valid()
    ensures !w.Ready() ==> !DownApp(q, ssl, w, started, now, rto, encap).window.Ready()
  {
    if started {
      var p := PushCleartext(q, ssl.writeReplies);
      if !p.failed {
        var d := DrainToWindow(SslPackets(ssl.ciphertextOut), w, now, rto, encap);
        assert |d.window.entries| == |w.entries| + d.taken;
      }
    }
  }

  /* ---------- up_sequenced ---------- */

  /** What up_sequenced does with an in-order packet: raw ones go to raw_recv,
      SSL ones to the SSL object's write_ciphertext. */
  function Handoff(p: Packet): Event {
    if p.raw then RawRecv(p) else CiphertextToSsl(p.data)
  }

  datatype Delivery = Delivery(recv: RecvWindow, intake: seq<Outcome>, events: seq<Event>, failed: bool)

  /**
   * up_sequenced's first loop: while the next in-order packet is present,
   * hand it on and advance past it; an SSL packet before the handshake has
   * started stops the loop without advancing, and so does a write_ciphertext
   * that throws.
   */
  function Deliver(r: RecvWindow, started: bool, intake: seq<Outcome>): (d: Delivery)
    requires r.Valid()
    ensures d.recv.Valid() && d.recv.span == r.span && d.recv.cursor >= r.cursor
    decreases |r.slots|
  {
    if !r.Ready() then Delivery(r, intake, [], false)
    else
      var p := r.NextSequenced();
      if !p.raw && !started then Delivery(r, intake, [], false)
      else if !p.raw && intake != [] && intake[0] == Failed then Delivery(r, intake[1..], [], true)
      else
        var rest := if p.raw || intake == [] then intake else intake[1..];
        var d := Deliver(r.Advance(), started, rest);
        Delivery(d.recv, d.intake, [Handoff(p)] + d.events, d.failed)
  }

  /** One packet is handed on per id the cursor moves past. */
  lemma {:induction false} DeliverCount(r: RecvWindow, started: bool, intake: seq<Outcome>)
    requires r.Valid()
    ensures var d := Deliver(r, started, intake);
      |d.events| == d.recv.cursor - r.cursor
    decreases |r.slots|
  {
    if r.Ready() {
      var p := r.NextSequenced();
      if !(!p.raw && !started) && !(!p.raw && intake != [] && intake[0] == Failed) {
        var rest := if p.raw || intake == [] then intake else intake[1..];
        DeliverCount(r.Advance(), started, rest);
      }
    }
  }

  /** events hands on, in order, the packets slots holds at ids from .. upto - 1. */
  ghost predicate HandsOn(events: seq<Event>, slots: map<nat, Packet>, from: nat, upto: nat) {
    forall id :: from <= id < upto ==>
      id in slots && id - from < |events| && events[id - from] == Handoff(slots[id])
  }

  /** Handing on the packet at from, then the run from from + 1 out of a
      window that agrees with slots, is handing on the run from from. */
  lemma HandsOnCons(events: seq<Event>, slots: map<nat, Packet>, slots': map<nat, Packet>, from: nat, upto: nat)
    requires from in slots && HandsOn(events, slots', from + 1, upto)
    requires forall k :: k in slots' ==> k in slots && slots'[k] == slots[k]
    ensures HandsOn([Handoff(slots[from])] + events, slots, from, upto)
  {
    var all := [Handoff(slots[from])] + events;
    forall id | from <= id < upto
      ensures id in slots && id - from < |all| && all[id - from] == Handoff(slots[id])
    {
      if id > from {
        assert id in slots' && id - (from + 1) < |events| && events[id - (from + 1)] == Handoff(slots'[id]);
        assert all[id - from] == events[id - (from + 1)];
      }
    }
  }

  /**
   * In-order delivery: the packets handed on are exactly those at ids
   * cursor, cursor + 1, ... up to the new cursor, in that order.
   */
  lemma {:induction false} DeliverInOrder(r: RecvWindow, started: bool, intake: seq<Outcome>)
    requires r.Valid()
    ensures var d := Deliver(r, started, intake);
      HandsOn(d.events, r.slots, r.cursor, d.recv.cursor)
    decreases |r.slots|
  {
    if r.Ready() {
      var p := r.NextSequenced();
      if !(!p.raw && !started) && !(!p.raw && intake != [] && intake[0] == Failed) {
        var rest := if p.raw || intake == [] then intake else intake[1..];
        var r' := r.Advance();
        r.AdvanceKeeps();
        DeliverInOrder(r', started, rest);
        var d' := Deliver(r', started, rest);
        HandsOnCons(d'.events, r.slots, r'.slots, r.cursor, d'.recv.cursor);
      }
    }
  }

  /**
   * The receive window keeps precisely the packets at or beyond the new
   * cursor, unchanged; nothing is delivered twice and nothing is lost.
   */
  lemma {:induction false} DeliverKeepsRest(r: RecvWindow, started: bool, intake: seq<Outcome>)
    requires r.Valid()
    ensures var d := Deliver(r, started, intake);
      && (forall id :: id in d.recv.slots <==> id in r.slots && id >= d.recv.cursor)
      && (forall id :: id in d.recv.slots ==> d.recv.slots[id] == r.slots[id])
    decreases |r.slots|
  {
    if r.Ready() {
      var p := r.NextSequenced();
      if !(!p.raw && !started) && !(!p.raw && intake != [] && intake[0] == Failed) {
        var rest := if p.raw || intake == [] then intake else intake[1..];
        r.AdvanceKeeps();
        DeliverKeepsRest(r.Advance(), started, rest);
      }
    }
  }

  /**
   * The delivery loop stops only at a missing id or at an SSL packet it
   * cannot feed (before the handshake has started, or when write_ciphertext
   * threw); that packet stays pending at the cursor. Before the handshake
   * only raw packets are passed.
   */
  lemma {:induction false} DeliverStops(r: RecvWindow, started: bool, intake: seq<Outcome>)
    requires r.Valid()
    ensures var d := Deliver(r, started, intake);
      && (d.recv.Ready() ==> !d.recv.slots[d.recv.cursor].raw && (!started || d.failed))
      && (d.failed ==> started && d.recv.Ready() && !d.recv.NextSequenced().raw)
      && (!started ==> forall id :: r.cursor <= id < d.recv.cursor ==> id in r.slots && r.slots[id].raw)
    decreases |r.slots|
  {
    if r.Ready() {
      var p := r.NextSequenced();
      if !(!p.raw && !started) && !(!p.raw && intake != [] && intake[0] == Failed) {
        var rest := if p.raw || intake == [] then intake else intake[1..];
        r.AdvanceKeeps();
        DeliverStops(r.Advance(), started, rest);
      }
    }
  }

  /** How many of events hand a packet to write_ciphertext. */
  function SslHandoffs(events: seq<Event>): (n: nat)
    ensures n <= |events|
  {
    if events == [] then 0
    else (if events[0].CiphertextToSsl? then 1 else 0) + SslHandoffs(events[1..])
  }

  /** s without its first n elements, or empty when s has fewer. */
  function Drop<T>(s: seq<T>, n: nat): seq<T> {
    if n < |s| then s[n..] else []
  }

  lemma DropTail<T>(s: seq<T>, n: nat)
    requires s != []
    ensures Drop(s, n + 1) == Drop(s[1..], n)
  {
  }

  /**
   * The write_ciphertext answers consumed: one per SSL packet handed on, and
   * one more when the loop fails. An exhausted script answers Succeeded.
   */
  lemma {:induction false} DeliverIntake(r: RecvWindow, started: bool, intake: seq<Outcome>)
    requires r.Valid()
    ensures var d := Deliver(r, started, intake);
      d.intake == Drop(intake, SslHandoffs(d.events) + (if d.failed then 1 else 0))
    decreases |r.slots|
  {
    if r.Ready() {
      var p := r.NextSequenced();
      if !(!p.raw && !started) && !(!p.raw && intake != [] && intake[0] == Failed) {
        var rest := if p.raw || intake == [] then intake else intake[1..];
        var d' := Deliver(r.Advance(), started, rest);
        DeliverIntake(r.Advance(), started, rest);
        var d := Deliver(r, started, intake);
        assert d.events[1..] == d'.events;
        if !p.raw && intake != [] {
          DropTail(intake, SslHandoffs(d'.events) + (if d'.failed then 1 else 0));
        }
      }
    }
  }

  /** Every answer consumed for a packet that was handed on is Succeeded. */
  lemma {:induction false} DeliverIntakeSucceeded(r: RecvWindow, started: bool, intake: seq<Outcome>)
    requires r.Valid()
    ensures var d := Deliver(r, started, intake);
      forall i :: 0 <= i < SslHandoffs(d.events) && i < |intake| ==> intake[i] == Succeeded
    decreases |r.slots|
  {
    if r.Ready() {
      var p := r.NextSequenced();
      if !(!p.raw && !started) && !(!p.raw && intake != [] && intake[0] == Failed) {
        var rest := if p.raw || intake == [] then intake else intake[1..];
        var d' := Deliver(r.Advance(), started, rest);
        DeliverIntakeSucceeded(r.Advance(), started, rest);
        var d := Deliver(r, started, intake);
        assert d.events[1..] == d'.events;
        forall i | 0 <= i < SslHandoffs(d.events) && i < |intake|
          ensures intake[i] == Succeeded
        {
          if !p.raw && i > 0 { assert intake[i] == rest[i - 1]; }
        }
      }
    }
  }

  /**
   * The loop fails exactly when the answer for the SSL packet it stopped at
   * is Failed.
   */
  lemma {:induction false} DeliverIntakeFailed(r: RecvWindow, started: bool, intake: seq<Outcome>)
    requires r.Valid()
    ensures var d := Deliver(r, started, intake);
      var k := SslHandoffs(d.events);
      d.failed <==> started && d.recv.Ready() && !d.recv.NextSequenced().raw && k < |intake| && intake[k] == Failed
    decreases |r.slots|
  {
    if r.Ready() {
      var p := r.NextSequenced();
      if !(!p.raw && !started) && !(!p.raw && intake != [] && intake[0] == Failed) {
        var rest := if p.raw || intake == [] then intake else intake[1..];
        var d' := Deliver(r.Advance(), started, rest);
        DeliverIntakeFailed(r.Advance(), started, rest);
        var d := Deliver(r, started, intake);
        assert d.events[1..] == d'.events;
      }
    }
  }

  datatype Readout = Readout(replies: seq<ReadReply>, events: seq<Event>, failed: bool)

  /**
   * up_sequenced's second loop: while the SSL object has ciphertext pending,
   * read cleartext and pass each chunk to app_recv, until it answers
   * SHOULD_RETRY or throws.
   */
  function ReadCleartext(replies: seq<ReadReply>): (r: Readout)
    ensures |r.replies| <= |replies|
    decreases |replies|
  {
    if replies == [] then Readout([], [], false)
    else
      match replies[0]
      case ReadFail => Readout(replies[1..], [], true)
      case ReadRetry => Readout(replies[1..], [], false)
      case Cleartext(b) =>
        var r := ReadCleartext(replies[1..]);
        Readout(r.replies, [AppRecv(b)] + r.events, r.failed)
  }

  /**
   * Every chunk read before the first SHOULD_RETRY or exception reaches the
   * application, in order, and nothing after it does; the loop fails exactly
   * when it is an exception.
   */
  lemma {:induction false} ReadCleartextShape(replies: seq<ReadReply>)
    ensures var r := ReadCleartext(replies);
      var k := |r.events|;
      && k <= |replies|
      && (forall i :: 0 <= i < k ==> replies[i].Cleartext? && r.events[i] == AppRecv(replies[i].data))
      && (k < |replies| ==> !replies[k].Cleartext? && (r.failed <==> replies[k] == ReadFail) && r.replies == replies[k + 1..])
      && (k == |replies| ==> !r.failed && r.replies == [])
    decreases |replies|
  {
    if replies != [] && replies[0].Cleartext? {
      ReadCleartextShape(replies[1..]);
      var r := ReadCleartext(replies);
      var r' := ReadCleartext(replies[1..]);
      assert r.events == [AppRecv(replies[0].data)] + r'.events;
      forall i | 1 <= i < |r.events|
        ensures replies[i].Cleartext? && r.events[i] == AppRecv(replies[i].data)
      {
        assert r.events[i] == r'.events[i - 1];
        assert replies[i] == replies[1..][i - 1];
      }
      if |r.events| < |replies| {
        assert replies[1..][|r'.events| + 1..] == replies[|r.events| + 1..];
      }
    }
  }

  datatype Up = Up(recv: RecvWindow, ssl: SslSession, events: seq<Event>, status: Status)

  /** up_sequenced: the delivery loop, then, once the handshake has started,
      the cleartext read loop. */
  function UpSequencedModel(r: RecvWindow, ssl: SslSession, started: bool): (u: Up)
    requires r.Valid()
    ensures u.recv.Valid() && u.recv.span == r.span
    ensures u.status == Done || u.status == Thrown(IntakeFailure) || u.status == Thrown(SslFailure)
    ensures u.status == Thrown(SslFailure) ==> started
  {
    var d := Deliver(r, started, ssl.intakeReplies);
    var ssl1 := ssl.(intakeReplies := d.intake);
    if d.failed then Up(d.recv, ssl1, d.events, Thrown(IntakeFailure))
    else if !started then Up(d.recv, ssl1, d.events, Done)
    else
      var rd := ReadCleartext(ssl.readReplies);
      Up(d.recv, ssl1.(readReplies := rd.replies), d.events + rd.events,
         if rd.failed then Thrown(SslFailure) else Done)
  }

  datatype Received = Received(send: SendWindow, recv: RecvWindow, acks: seq<nat>, ssl: SslSession,
                               events: seq<Event>, status: Status)

  /**
   * up_stack on an inbound datagram: decapsulate, and up_sequenced only when
   * the packet was placed into the receive window. A rejected datagram
   * changes nothing and its failure propagates.
   */
  function NetRecvModel(pkt: Inbound, send: SendWindow, recv: RecvWindow, acks: seq<nat>, ssl: SslSession,
                        started: bool): (n: Received)
    requires send.Valid() && recv.Valid()
    ensures n.send.Valid() && n.send.span == send.span && n.recv.Valid() && n.recv.span == recv.span
    ensures n.status == Thrown(DecapsulationFailure) <==> !pkt.authentic
    ensures !pkt.authentic ==> n == Received(send, recv, acks, ssl, [], Thrown(DecapsulationFailure))
    ensures IsFatal(n.status) ==> started && n.status == Thrown(SslFailure)
    ensures Decapsulate(pkt, send, recv, acks).verdict == NotQueued ==>
      n.events == [] && n.status == Done && n.recv == recv && n.ssl == ssl
  {
    var d := Decapsulate(pkt, send, recv, acks);
    match d.verdict
    case Rejected => Received(send, recv, acks, ssl, [], Thrown(DecapsulationFailure))
    case NotQueued => Received(d.send, d.recv, d.acks, ssl, [], Done)
    case Queued =>
      var u := UpSequencedModel(d.recv, ssl, started);
      Received(d.send, u.recv, d.acks, u.ssl, u.events, u.status)
  }

  /* ---------- send_pending_acks ---------- */

  /** The standalone ACKs send_pending_acks transmits for the pending ids. */
  function AckBatches(acks: seq<nat>, maxAckList: nat): seq<Event>
    requires maxAckList > 0
    decreases |acks|
  {
    if acks == [] then []
    else
      var (w, rest) := GenerateAck(acks, maxAckList);
      [NetSend(w)] + AckBatches(rest, maxAckList)
  }

  /** The ids carried by a run of standalone ACKs, in transmission order. */
  function AckedIds(evs: seq<Event>): seq<nat>
    decreases |evs|
  {
    if evs == [] then []
    else (if evs[0].NetSend? && evs[0].wire.AckOnly? then evs[0].wire.acked else []) + AckedIds(evs[1..])
  }

  /**
   * Draining the pending ACKs sends each pending id exactly once, in order,
   * in standalone ACKs of at least one and at most maxAckList ids each.
   */
  lemma {:induction false} AckBatchesCover(acks: seq<nat>, maxAckList: nat)
    requires maxAckList > 0
    ensures var b := AckBatches(acks, maxAckList);
      && AckedIds(b) == acks
      && (forall i :: 0 <= i < |b| ==> b[i].NetSend? && b[i].wire.AckOnly? && 0 < |b[i].wire.acked| <= maxAckList)
    decreases |acks|
  {
    if acks != [] {
      var (w, rest) := GenerateAck(acks, maxAckList);
      AckBatchesCover(rest, maxAckList);
      var b := AckBatches(acks, maxAckList);
      var b' := AckBatches(rest, maxAckList);
      assert b == [NetSend(w)] + b';
      assert b[1..] == b';
      forall i | 1 <= i < |b|
        ensures b[i].NetSend? && b[i].wire.AckOnly? && 0 < |b[i].wire.acked| <= maxAckList
      {
        assert b[i] == b'[i - 1];
      }
    }
  }

  /** For K pending ids, send_pending_acks transmits ceil(K / maxAckList) packets:
      enough to carry all K ids, and one fewer would not be. */
  lemma {:induction false} AckBatchesCount(acks: seq<nat>, maxAckList: nat)
    requires maxAckList > 0
    ensures var n := |AckBatches(acks, maxAckList)|;
      |acks| <= n * maxAckList && (n == 0 || (n - 1) * maxAckList < |acks|)
    decreases |acks|
  {
    if acks != [] {
      var (w, rest) := GenerateAck(acks, maxAckList);
      AckBatchesCount(rest, maxAckList);
      var n' := |AckBatches(rest, maxAckList)|;
      assert |AckBatches(acks, maxAckList)| == n' + 1;
      assert (n' + 1) * maxAckList == n' * maxAckList + maxAckList;
      if |acks| < maxAckList {
        assert rest == [];
      }
    }
  }

  /* ---------- retransmit ---------- */

  /** The send-window entries after retransmit's loop: due entries get a new deadline. */
  function Resend(es: seq<SendEntry>, now: nat, rto: nat): (r: seq<SendEntry>)
    ensures |r| == |es|
    ensures forall i :: 0 <= i < |es| ==> r[i].id == es[i].id && r[i].body == es[i].body && r[i].defined == es[i].defined
    ensures forall i :: 0 <= i < |es| && ReadyRetransmit(es[i], now) ==> r[i].deadline == now + rto
    ensures forall i :: 0 <= i < |es| && !ReadyRetransmit(es[i], now) ==> r[i] == es[i]
  {
    seq(|es|, i requires 0 <= i < |es| => Refresh(es[i], now, rto))
  }

  /** What retransmit's loop hands to net_send, walking the entries oldest first. */
  function Resent(es: seq<SendEntry>, now: nat): seq<Event>
    decreases |es|
  {
    if es == [] then []
    else
      var last := es[|es| - 1];
      Resent(es[..|es| - 1], now) + (if ReadyRetransmit(last, now) then [NetSend(Sequenced(last.id, last.body))] else [])
  }

  /** The sequence id a net_send event carries, or -1 for any other event. */
  function WireId(ev: Event): int {
    if ev.NetSend? && ev.wire.Sequenced? then ev.wire.id else -1
  }

  /** Retransmission re-sends only entries whose own deadline has elapsed,
      each with its original id and packet. */
  lemma {:induction false} ResentSound(es: seq<SendEntry>, now: nat)
    ensures forall ev :: ev in Resent(es, now) ==>
      exists e :: e in es && ReadyRetransmit(e, now) && ev == NetSend(Sequenced(e.id, e.body))
    decreases |es|
  {
    if es != [] {
      var init := es[..|es| - 1];
      ResentSound(init, now);
      forall ev | ev in Resent(es, now)
        ensures exists e :: e in es && ReadyRetransmit(e, now) && ev == NetSend(Sequenced(e.id, e.body))
      {
        if ev in Resent(init, now) {
          var e :| e in init && ReadyRetransmit(e, now) && ev == NetSend(Sequenced(e.id, e.body));
          assert e in es;
        } else {
          assert es[|es| - 1] in es;
        }
      }
    }
  }

  /** Retransmission re-sends every entry whose deadline has elapsed. */
  lemma {:induction false} ResentComplete(es: seq<SendEntry>, now: nat)
    ensures forall e :: e in es && ReadyRetransmit(e, now) ==> NetSend(Sequenced(e.id, e.body)) in Resent(es, now)
    decreases |es|
  {
    if es != [] {
      var init := es[..|es| - 1];
      ResentComplete(init, now);
      assert es == init + [es[|es| - 1]];
    }
  }

  /** The entries are re-sent oldest first: ids ascend along the re-sent packets. */
  lemma {:induction false} ResentAscending(es: seq<SendEntry>, now: nat)
    requires forall i, j :: 0 <= i < j < |es| ==> es[i].id < es[j].id
    ensures forall k, l :: 0 <= k < l < |Resent(es, now)| ==> WireId(Resent(es, now)[k]) < WireId(Resent(es, now)[l])
    decreases |es|
  {
    if es != [] {
      var init := es[..|es| - 1];
      var last := es[|es| - 1];
      ResentAscending(init, now);
      ResentSound(init, now);
      var s := Resent(es, now);
      var s' := Resent(init, now);
      if ReadyRetransmit(last, now) {
        assert s == s' + [NetSend(Sequenced(last.id, last.body))];
        forall k | 0 <= k < |s'|
          ensures WireId(s[k]) < last.id
        {
          assert s[k] == s'[k] && s'[k] in s';
          var e :| e in init && ReadyRetransmit(e, now) && s'[k] == NetSend(Sequenced(e.id, e.body));
          var i :| 0 <= i < |init| && init[i] == e;
          assert es[i] == e;
        }
        assert WireId(s[|s| - 1]) == last.id;
      } else {
        assert s == s';
      }
    }
  }

  /**
   * When retransmission fires: the deadline update_retransmit computes at
   * time now is reached at a later time t exactly when some unacknowledged
   * entry of the window is due by t; with no such entry it is never reached.
   */
  lemma RetransmitFires(w: SendWindow, now: nat, t: nat)
    requires now <= t
    ensures Due(t, Add(now, w.UntilRetransmit(now))) <==>
      exists i :: 0 <= i < |w.entries| && w.entries[i].defined && w.entries[i].deadline <= t
  {
    var d := w.UntilRetransmit(now);
    if d.Ticks? {
      var j :| 0 <= j < |w.entries| && w.entries[j].defined && d.n == Remaining(w.entries[j], now);
      if Due(t, Add(now, d)) {
        assert w.entries[j].deadline <= t;
      }
      if exists i :: 0 <= i < |w.entries| && w.entries[i].defined && w.entries[i].deadline <= t {
        var i :| 0 <= i < |w.entries| && w.entries[i].defined && w.entries[i].deadline <= t;
        assert d.n <= Remaining(w.entries[i], now);
      }
    }
  }
}
