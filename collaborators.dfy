/**
 * The stack's collaborators, reduced to what the stack observes of them: the
 * SSL object as a script of its answers, and the derived protocol layer's
 * decapsulate and generate_ack.
 */
module Collaborators {
  import opened Base
  import opened Reliable

  /** Answer of write_cleartext_unbuffered: bytes written, SHOULD_RETRY, or an exception. */
  datatype WriteReply = Written(n: nat) | WriteRetry | WriteFail

  /** Answer of read_cleartext: a cleartext chunk, SHOULD_RETRY, or an exception. */
  datatype ReadReply = Cleartext(data: Buffer) | ReadRetry | ReadFail

  /** Answer of a call that returns nothing but may throw. */
  datatype Outcome = Succeeded | Failed

  /**
   * The SSL object as the stack sees it. Its engine is not modelled: each
   * answer comes from a script consumed in call order.
   *  - handshake: what start_handshake does on every call;
   *  - writeReplies: answers of write_cleartext_unbuffered; once exhausted the
   *    object answers SHOULD_RETRY;
   *  - ciphertextOut: ciphertext the object has ready; read_ciphertext_ready()
   *    holds while it is non-empty and read_ciphertext() takes its front;
   *  - intakeReplies: answers of write_ciphertext; once exhausted it succeeds;
   *  - readReplies: answers of read_cleartext; write_ciphertext_ready() holds
   *    while it is non-empty.
   */
  datatype SslSession = SslSession(
    handshake: Outcome,
    writeReplies: seq<WriteReply>,
    ciphertextOut: seq<Buffer>,
    intakeReplies: seq<Outcome>,
    readReplies: seq<ReadReply>)

  /** The answer at position i of a write script; SHOULD_RETRY past its end. */
  function WriteAnswer(replies: seq<WriteReply>, i: nat): WriteReply {
    if i < |replies| then replies[i] else WriteRetry
  }

  /** The bytes an SSL write that reports n bytes written has taken from buf. */
  function Take(buf: Buffer, n: nat): (r: Buffer)
    ensures |r| <= |buf| && r == buf[..|r|]
    ensures n >= |buf| ==> r == buf
  {
    if n < |buf| then buf[..n] else buf
  }

  /**
   * The derived layer's encapsulate, reduced to its outcome: it throws
   * exactly for the (send-window id, packet) pairs in the set.
   */
  type EncapFailures = iset<(nat, Packet)>

  predicate Encapsulates(fails: EncapFailures, id: nat, p: Packet) {
    (id, p) !in fails
  }

  /**
   * An inbound datagram as the derived layer decodes it: whether it passes
   * the integrity check, the ids it acknowledges, the sequence id it carries
   * (None for an ACK-only datagram) and the packet inside.
   */
  datatype Inbound = Inbound(authentic: bool, acks: seq<nat>, seqId: Option<nat>, body: Packet)

  /** decapsulate's answer: placed into the receive window, not placed, or thrown. */
  datatype Verdict = Queued | NotQueued | Rejected

  datatype Decapsulated = Decapsulated(verdict: Verdict, send: SendWindow, recv: RecvWindow, acks: seq<nat>)

  /**
   * decapsulate as the stack requires the derived layer to behave: a datagram
   * that fails the integrity check throws before touching anything; otherwise
   * its ACKs retire entries of the send window, its sequence id is recorded
   * for acknowledgement, and its packet enters the receive window when the id
   * lies in the window, which is what the answer reports.
   */
  function Decapsulate(pkt: Inbound, send: SendWindow, recv: RecvWindow, acks: seq<nat>): (d: Decapsulated)
    requires send.Valid() && recv.Valid()
    ensures d.send.Valid() && d.send.span == send.span && d.recv.Valid() && d.recv.span == recv.span
    ensures d.verdict == Rejected <==> !pkt.authentic
    ensures d.verdict == Rejected ==> d.send == send && d.recv == recv && d.acks == acks
    ensures d.verdict == Queued <==> pkt.authentic && pkt.seqId.Some? && recv.InWindow(pkt.seqId.value)
    ensures d.verdict == Queued ==> d.recv == recv.Receive(pkt.seqId.value, pkt.body)
    ensures d.verdict != Queued ==> d.recv == recv
    ensures d.verdict != Rejected ==> d.send == send.AckAll(pkt.acks)
    ensures d.verdict != Rejected ==> d.acks == acks + (if pkt.seqId.Some? then [pkt.seqId.value] else [])
  {
    if !pkt.authentic then Decapsulated(Rejected, send, recv, acks)
    else
      var send' := send.AckAll(pkt.acks);
      match pkt.seqId
      case None => Decapsulated(NotQueued, send', recv, acks)
      case Some(id) =>
        if recv.InWindow(id) then Decapsulated(Queued, send', recv.Receive(id, pkt.body), acks + [id])
        else Decapsulated(NotQueued, send', recv, acks + [id])
  }

  /**
   * generate_ack: one standalone ACK carrying the first ids pending
   * acknowledgement, at most maxAckList of them; those ids leave the list.
   */
  function GenerateAck(acks: seq<nat>, maxAckList: nat): (r: (Wire, seq<nat>))
    requires acks != [] && maxAckList > 0
    ensures r.0.AckOnly? && 0 < |r.0.acked| <= maxAckList
    ensures acks == r.0.acked + r.1
  {
    var n := if |acks| < maxAckList then |acks| else maxAckList;
    (AckOnly(acks[..n]), acks[n..])
  }
}
