/**
 * Value types shared by the protocol stack model: buffers, packets as the
 * stack sees them, the time scale, the failures the pipelines raise and the
 * events the stack emits towards its collaborators.
 */
module Base {

  newtype byte = x: int | 0 <= x < 256

  /** An immutable byte buffer (BufferPtr contents). */
  type Buffer = seq<byte>

  datatype Option<T> = None | Some(value: T)

  /** A PACKET: its raw/SSL-ciphertext flag (is_raw) and its buffer. */
  datatype Packet = Packet(raw: bool, data: Buffer)

  /**
   * What the stack hands to net_send: a sequenced packet encapsulated with its
   * send-window id, or a standalone ACK carrying the acknowledged ids.
   */
  datatype Wire = Sequenced(id: nat, body: Packet) | AckOnly(acked: seq<nat>)

  /** A point in time; Never is Time::infinite(). */
  datatype Time = At(ticks: nat) | Never

  /** A span of time; Forever is Time::Duration::infinite(). */
  datatype Duration = Ticks(n: nat) | Forever

  /** now + d, where adding an infinite duration gives the infinite time. */
  function Add(now: nat, d: Duration): (t: Time)
    ensures t == Never <==> d == Forever
    ensures d.Ticks? ==> t.ticks >= now && t.ticks - now == d.n
  {
    match d
    case Ticks(n) => At(now + n)
    case Forever => Never
  }

  /** `now >= t`: never true of the infinite time. */
  predicate Due(now: nat, t: Time) {
    t.At? && now >= t.ticks
  }

  /** The ProtoStats error tags the stack records. */
  datatype ErrorTag = SslError | EncapsulationError

  /** Everything that can leave a public entry point as an exception. */
  datatype Failure =
    | SslFailure              // write_cleartext_unbuffered or read_cleartext threw
    | EncapsulationFailure    // encapsulate threw
    | DecapsulationFailure    // decapsulate threw
    | HandshakeFailure        // start_handshake of the SSL object threw
    | IntakeFailure           // write_ciphertext of the SSL object threw

  /** The failures the stack catches, records and answers by invalidating itself. */
  predicate Fatal(f: Failure) {
    f == SslFailure || f == EncapsulationFailure
  }

  function TagOf(f: Failure): (tag: ErrorTag)
    requires Fatal(f)
    ensures tag == SslError <==> f == SslFailure
  {
    if f == SslFailure then SslError else EncapsulationError
  }

  /** How a call returned: normally, or with an exception propagating to the caller. */
  datatype Status = Done | Thrown(failure: Failure)

  predicate IsFatal(st: Status) {
    st.Thrown? && Fatal(st.failure)
  }

  /** An observable call the stack makes on a collaborator. */
  datatype Event =
    | NetSend(wire: Wire)               // net_send
    | AppRecv(data: Buffer)             // app_recv
    | RawRecv(packet: Packet)           // raw_recv
    | CleartextToSsl(data: Buffer)      // bytes write_cleartext_unbuffered reports as written
    | CiphertextToSsl(data: Buffer)     // a buffer write_ciphertext accepted
    | Stat(tag: ErrorTag)               // stats->error
    | InvalidateCallback                // invalidate_callback

  /** Appending nothing. */
  lemma AppendNil<T>(a: seq<T>)
    ensures a + [] == a
  {
  }

  /** Concatenation regrouped. */
  lemma AppendAssoc<T>(a: seq<T>, b: seq<T>, c: seq<T>)
    ensures a + (b + c) == (a + b) + c
  {
  }
}
