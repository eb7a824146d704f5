/**
 * Minimal models of the reliability layer the stack drives: the send window
 * (ReliableSendTemplate) and the receive window (ReliableRecvTemplate), reduced
 * to the operations the stack relies on. Ids do not wrap.
 */
module Reliable {
  import opened Base

  /** An outstanding sent message: its id, its packet, whether it is still
      unacknowledged (defined) and when it is next due for retransmission. */
  datatype SendEntry = SendEntry(id: nat, body: Packet, defined: bool, deadline: nat)

  /** ready_retransmit(now) */
  predicate ReadyRetransmit(e: SendEntry, now: nat) {
    e.defined && now >= e.deadline
  }

  /** How long until e is due: zero once it is due (Message::until_retransmit). */
  function Remaining(e: SendEntry, now: nat): nat {
    if now < e.deadline then e.deadline - now else 0
  }

  /** reset_retransmit applied to an entry that is due; others are left alone. */
  function Refresh(e: SendEntry, now: nat, rto: nat): (r: SendEntry)
    ensures r.id == e.id && r.body == e.body && r.defined == e.defined
    ensures ReadyRetransmit(e, now) ==> r.deadline == now + rto
    ensures !ReadyRetransmit(e, now) ==> r == e
  {
    if ReadyRetransmit(e, now) then e.(deadline := now + rto) else e
  }

  /** The earliest deadline among the unacknowledged entries of es. */
  function Earliest(es: seq<SendEntry>): (r: Option<nat>)
    ensures r.None? <==> forall i :: 0 <= i < |es| ==> !es[i].defined
    ensures r.Some? ==> forall i :: 0 <= i < |es| && es[i].defined ==> r.value <= es[i].deadline
    ensures r.Some? ==> exists i :: 0 <= i < |es| && es[i].defined && es[i].deadline == r.value
  {
    if es == [] then None
    else
      var rest := Earliest(es[1..]);
      assert forall i :: 1 <= i < |es| ==> es[i] == es[1..][i - 1];
      if !es[0].defined then rest
      else if rest.None? || es[0].deadline <= rest.value then Some(es[0].deadline)
      else rest
  }

  /**
   * The send window: entries hold ids head, head+1, ... in order; tail_id is
   * one past the last; at most span entries are outstanding; acknowledged
   * entries at the head are purged, so the head entry is always unacknowledged.
   */
  datatype SendWindow = SendWindow(span: nat, head: nat, entries: seq<SendEntry>)
  {
    ghost predicate Consecutive() {
      forall i :: 0 <= i < |entries| ==> entries[i].id == head + i
    }

    ghost predicate Valid() {
      |entries| <= span && Consecutive() && (entries != [] ==> entries[0].defined)
    }

    function TailId(): nat {
      head + |entries|
    }

    /** ready(): room for another message. */
    predicate Ready() {
      |entries| < span
    }

    /** send(now) followed by storing the packet: the next id is allocated. */
    function Send(now: nat, rto: nat, p: Packet): (w: SendWindow)
      requires Valid() && Ready()
      ensures w.Valid() && w.span == span && w.head == head && w.TailId() == TailId() + 1
      ensures w.entries[..|entries|] == entries
      ensures w.entries[|entries|] == SendEntry(TailId(), p, true, now + rto)
    {
      SendWindow(span, head, entries + [SendEntry(TailId(), p, true, now + rto)])
    }

    /** Drops the acknowledged entries at the head of the window. */
    function Purge(): (w: SendWindow)
      requires |entries| <= span && Consecutive()
      ensures w.Valid() && w.span == span && w.TailId() == TailId()
      ensures w.head >= head && w.entries == entries[w.head - head..]
      ensures forall i :: 0 <= i < w.head - head ==> !entries[i].defined
      decreases |entries|
    {
      if entries != [] && !entries[0].defined then
        var rest := SendWindow(span, head + 1, entries[1..]);
        ConsecutiveTail();
        var w := rest.Purge();
        assert forall i :: 1 <= i < w.head - head ==> entries[i] == rest.entries[i - 1];
        assert rest.entries[w.head - rest.head..] == entries[w.head - head..];
        w
      else this
    }

    /** Dropping the head entry keeps the ids consecutive from head + 1. */
    lemma ConsecutiveTail()
      requires Consecutive() && entries != []
      ensures SendWindow(span, head + 1, entries[1..]).Consecutive()
    {
      forall i | 0 <= i < |entries| - 1
        ensures entries[1..][i].id == head + 1 + i
      {
        assert entries[1..][i] == entries[i + 1];
      }
    }

    /** ack(id): the entry with that id is retired; ids outside the window are ignored. */
    function Ack(id: nat): (w: SendWindow)
      requires Valid()
      ensures w.Valid() && w.span == span && w.TailId() == TailId() && w.head >= head
    {
      if head <= id < TailId() then
        SendWindow(span, head, entries[id - head := entries[id - head].(defined := false)]).Purge()
      else this
    }

    /** Applies ack to every id, in order. */
    function AckAll(ids: seq<nat>): (w: SendWindow)
      requires Valid()
      ensures w.Valid() && w.span == span && w.TailId() == TailId()
      decreases |ids|
    {
      if ids == [] then this else Ack(ids[0]).AckAll(ids[1..])
    }

    /** until_retransmit(now): the least time until an unacknowledged entry is due. */
    function UntilRetransmit(now: nat): (d: Duration)
      ensures d == Forever <==> forall i :: 0 <= i < |entries| ==> !entries[i].defined
      ensures d.Ticks? ==> forall i :: 0 <= i < |entries| && entries[i].defined ==> d.n <= Remaining(entries[i], now)
      ensures d.Ticks? ==> exists i :: 0 <= i < |entries| && entries[i].defined && d.n == Remaining(entries[i], now)
    {
      match Earliest(entries)
      case None => Forever
      case Some(t) => Ticks(if now < t then t - now else 0)
    }
  }

  /** The empty send window of the constructor. */
  function EmptySendWindow(span: nat): (w: SendWindow)
    ensures w.Valid() && w.span == span && w.Ready() == (span > 0) && w.UntilRetransmit(0) == Forever
  {
    SendWindow(span, 0, [])
  }

  /** A retired entry stays retired: after ack(id) no unacknowledged entry carries
      that id, every other entry is one the window already held, and every
      unacknowledged entry with another id is still held. */
  lemma AckRetires(w: SendWindow, id: nat)
    requires w.Valid()
    ensures forall e :: e in w.Ack(id).entries && e.defined ==> e.id != id
    ensures forall e :: e in w.Ack(id).entries && e.id != id ==> e in w.entries
    ensures forall e :: e in w.entries && e.defined && e.id != id ==> e in w.Ack(id).entries
  {
    AckRetiresId(w, id);
    AckKeepsOthers(w, id);
  }

  /** ack(id) leaves no unacknowledged entry with that id and invents no other entry. */
  lemma AckRetiresId(w: SendWindow, id: nat)
    requires w.Valid()
    ensures forall e :: e in w.Ack(id).entries && e.defined ==> e.id != id
    ensures forall e :: e in w.Ack(id).entries && e.id != id ==> e in w.entries
  {
    if w.head <= id < w.TailId() {
      var k := id - w.head;
      var marked := SendWindow(w.span, w.head, w.entries[k := w.entries[k].(defined := false)]);
      var a := marked.Purge();
      assert w.Ack(id) == a;
      forall e | e in marked.entries
        ensures e.defined ==> e.id != id
        ensures e.id != id ==> e in w.entries
      {
        var i :| 0 <= i < |marked.entries| && marked.entries[i] == e;
        if i != k {
          assert e == w.entries[i];
        }
      }
      SuffixMembers(marked.entries, a.head - w.head);
    }
  }

  /** ack(id) keeps every unacknowledged entry with another id. */
  lemma AckKeepsOthers(w: SendWindow, id: nat)
    requires w.Valid()
    ensures forall e :: e in w.entries && e.defined && e.id != id ==> e in w.Ack(id).entries
  {
    if w.head <= id < w.TailId() {
      forall e | e in w.entries && e.defined && e.id != id
        ensures e in w.Ack(id).entries
      {
        var i :| 0 <= i < |w.entries| && w.entries[i] == e;
        AckKeepsAt(w, id, i);
      }
    } else {
      AckOutside(w, id);
    }
  }

  /** Acknowledging the id of entry k keeps the unacknowledged entry i, for i other than k. */
  lemma AckKeepsAt(w: SendWindow, id: nat, i: nat)
    requires w.Valid() && w.head <= id < w.TailId()
    requires i < |w.entries| && w.entries[i].defined && w.entries[i].id != id
    ensures w.entries[i] in w.Ack(id).entries
  {
    var k := id - w.head;
    MarkedConsecutive(w, k);
    var j := PurgeKeepsAt(Marked(w, k), i);
    AckMarks(w, id);
  }

  /** An id outside the window is ignored. */
  lemma AckOutside(w: SendWindow, id: nat)
    requires w.Valid() && !(w.head <= id < w.TailId())
    ensures w.Ack(id) == w
  {
  }

  /** The window with entry k marked acknowledged, before purging. */
  function Marked(w: SendWindow, k: nat): (m: SendWindow)
    requires k < |w.entries|
    ensures m.span == w.span && m.head == w.head && |m.entries| == |w.entries|
    ensures m.entries[k].id == w.entries[k].id && !m.entries[k].defined
    ensures forall i :: 0 <= i < |w.entries| && i != k ==> m.entries[i] == w.entries[i]
  {
    SendWindow(w.span, w.head, w.entries[k := w.entries[k].(defined := false)])
  }

  /** ack of an id inside the window marks its entry acknowledged, then purges. */
  lemma AckMarks(w: SendWindow, id: nat)
    requires w.Valid() && w.head <= id < w.TailId()
    ensures w.Ack(id) == Marked(w, id - w.head).Purge()
  {
  }

  /** Marking an entry keeps the ids consecutive. */
  lemma MarkedConsecutive(w: SendWindow, k: nat)
    requires w.Valid() && k < |w.entries|
    ensures |Marked(w, k).entries| <= Marked(w, k).span && Marked(w, k).Consecutive()
  {
    var m := Marked(w, k);
    forall i | 0 <= i < |m.entries|
      ensures m.entries[i].id == m.head + i
    {
      assert m.entries[i].id == w.entries[i].id;
    }
  }

  /** Purging keeps an unacknowledged entry, at some place j of what remains. */
  lemma {:induction false} PurgeKeepsAt(w: SendWindow, i: nat) returns (j: nat)
    requires |w.entries| <= w.span && w.Consecutive()
    requires i < |w.entries| && w.entries[i].defined
    ensures j < |w.Purge().entries| && w.Purge().entries[j] == w.entries[i]
    decreases |w.entries|
  {
    if !w.entries[0].defined {
      var rest := SendWindow(w.span, w.head + 1, w.entries[1..]);
      w.ConsecutiveTail();
      assert rest.entries[i - 1] == w.entries[i];
      j := PurgeKeepsAt(rest, i - 1);
      assert w.Purge() == rest.Purge();
    } else {
      assert w.Purge() == w;
      j := i;
    }
  }

  /**
   * Acknowledging a list of ids: no unacknowledged entry left carries one of
   * them, every unacknowledged entry left was already held, and every
   * unacknowledged entry whose id is not listed survives.
   */
  lemma {:induction false} AckAllRetires(w: SendWindow, ids: seq<nat>)
    requires w.Valid()
    ensures forall e :: e in w.AckAll(ids).entries && e.defined ==> e.id !in ids && e in w.entries
    ensures forall e :: e in w.AckAll(ids).entries && e.id !in ids ==> e in w.entries
    ensures forall e :: e in w.entries && e.defined && e.id !in ids ==> e in w.AckAll(ids).entries
    decreases |ids|
  {
    if ids != [] {
      var w1 := w.Ack(ids[0]);
      AckRetires(w, ids[0]);
      AckAllRetires(w1, ids[1..]);
      assert w.AckAll(ids) == w1.AckAll(ids[1..]);
      forall e | e in w.AckAll(ids).entries && e.defined
        ensures e.id !in ids && e in w.entries
      {
        assert e in w1.entries && e.id !in ids[1..];
        InConsOrTail(ids, e.id);
      }
      forall e | e in w.AckAll(ids).entries && e.id !in ids
        ensures e in w.entries
      {
        InConsOrTail(ids, e.id);
      }
      forall e | e in w.entries && e.defined && e.id !in ids
        ensures e in w.AckAll(ids).entries
      {
        InConsOrTail(ids, e.id);
      }
    }
  }

  /** Membership in a non-empty sequence: its head or its tail. */
  lemma InConsOrTail<T>(s: seq<T>, x: T)
    requires s != []
    ensures x in s <==> x == s[0] || x in s[1..]
  {
    if x in s && x != s[0] {
      var i :| 0 <= i < |s| && s[i] == x;
      assert s[1..][i - 1] == x;
    }
  }

  /** Every element of a suffix is an element of the sequence. */
  lemma SuffixMembers<T>(s: seq<T>, off: nat)
    requires off <= |s|
    ensures forall x :: x in s[off..] ==> x in s
  {
    forall x | x in s[off..]
      ensures x in s
    {
      var i :| 0 <= i < |s[off..]| && s[off..][i] == x;
      assert s[off + i] == x;
    }
  }

  /**
   * The receive window: packets received out of order wait in slots keyed by
   * id; cursor is the next id to deliver; only ids in [cursor, cursor + span)
   * are held.
   */
  datatype RecvWindow = RecvWindow(span: nat, cursor: nat, slots: map<nat, Packet>)
  {
    ghost predicate Valid() {
      forall id :: id in slots ==> cursor <= id < cursor + span
    }

    predicate InWindow(id: nat) {
      cursor <= id < cursor + span
    }

    /** receive(packet, id) for an id inside the window. */
    function Receive(id: nat, p: Packet): (r: RecvWindow)
      requires Valid() && InWindow(id)
      ensures r.Valid() && r.span == span && r.cursor == cursor
      ensures id in r.slots && r.slots[id] == p
      ensures forall k :: k != id ==> (k in r.slots <==> k in slots)
      ensures forall k :: k != id && k in slots ==> r.slots[k] == slots[k]
    {
      RecvWindow(span, cursor, slots[id := p])
    }

    /** ready(): the next in-order packet has arrived. */
    predicate Ready() {
      cursor in slots
    }

    /** next_sequenced() */
    function NextSequenced(): Packet
      requires Ready()
    {
      slots[cursor]
    }

    /** advance(): the head packet is disposed of and the cursor moves on. */
    function Advance(): (r: RecvWindow)
      requires Valid() && Ready()
      ensures r.Valid() && r.span == span && r.cursor == cursor + 1 && |r.slots| < |slots|
    {
      var r := RecvWindow(span, cursor + 1, slots - {cursor});
      assert r.slots.Keys == slots.Keys - {cursor};
      r
    }

    /** advance() disposes of the head packet alone: every other slot is kept as it was. */
    lemma AdvanceKeeps()
      requires Valid() && Ready()
      ensures forall k :: k in Advance().slots <==> k in slots && k != cursor
      ensures forall k :: k in Advance().slots ==> Advance().slots[k] == slots[k]
    {
    }
  }

  function EmptyRecvWindow(span: nat): (r: RecvWindow)
    ensures r.Valid() && r.span == span && !r.Ready()
  {
    RecvWindow(span, 0, map[])
  }
}
