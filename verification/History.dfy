/**
 The history of a client: what it read, sent, delivered, released, stored and dropped, in order. The
 properties of whole runs are stated on histories; the client's fields are shown to be what the
 functions below compute from its history.
 */
module History {
  import opened Bytes
  import opened RemainingLength
  import opened Framing
  import opened Fields
  import opened Receive
  import P = PublishCodec
  import C = ConnectCodec
  import IdTable

  datatype Event =
    /** A call of readPacket: the bytes it took from the network, and its whole buffer if that holds
        a packet of a type from 2 on now. */
    | Received(taken: bytes, buf: Option<bytes>)
    /** A packet handed to sendPacket, and how many of its bytes reached the network. */
    | Sent(packet: bytes, count: nat)
    /** A message handed to the message handlers, with the packet identifier it was taken to have. */
    | Delivered(message: P.Found, id: nat)
    /** The identifier of a QoS 2 message was freed. */
    | Released(id: nat)
    /** A publish was kept for resending. */
    | Kept(publish: P.Message)
    /** An acknowledgement of type `kind` ended the waiting of a publish, for the identifier it was
        taken to have. */
    | Acked(kind: nat, id: nat)
    | PingAnswered
    /** The timer was found expired with too many pings outstanding. */
    | PingTimeout
    | Connected
    | Closed
    /** The session state was discarded. */
    | Cleared

  type Log = seq<Event>

  const EXACTLY_ONCE: nat := 2

  predicate IsQos2(e: Event) {
    e.Delivered? && e.message.qos == EXACTLY_ONCE
  }

  /** Identifiers of QoS 2 messages delivered and not released. */
  ghost function Open(log: Log): set<nat> {
    if log == [] then {} else OpenStep(Open(log[..|log| - 1]), log[|log| - 1])
  }

  ghost function OpenStep(open: set<nat>, e: Event): set<nat> {
    if IsQos2(e) then open + {e.id}
    else if e.Released? then open - {e.id}
    else if e.Cleared? then {}
    else open
  }

  /** The packet just read, if nothing has happened since. */
  ghost function JustRead(log: Log): Option<bytes> {
    if log != [] && log[|log| - 1].Received? then log[|log| - 1].buf else None
  }

  /** The packet just read, if at most one packet has been sent since. */
  ghost function LastRead(log: Log): Option<bytes> {
    if log != [] && log[|log| - 1].Sent? then JustRead(log[..|log| - 1]) else JustRead(log)
  }

  /** The message and the identifier are those of the PUBLISH in the buffer. One that is cut short,
      with a length field of one byte, only has its flags; the rest is arbitrary. */
  ghost predicate FromPublish(s: bytes, m: P.Found, id: nat) {
    && Framed(s, 2) && TypeOf(s[0]) == PUBLISH
    && match P.ParsePublish(s)
       case Some(found) => m == found && (m.id.Some? ==> id == m.id.value)
       case None => |Field(s[1..])| == 1 && m.qos == QosOf(s[0]) && m.id.None?
  }

  /** The packet in the buffer is an acknowledgement of that kind, and the first two bytes of its body are
      the identifier; again one that is cut short, with a length field of one byte, stands for an arbitrary
      one. */
  ghost predicate FromAck(s: bytes, kind: nat, id: nat) {
    && Framed(s, 2) && s[0] as int / 16 == kind
    && var at := BodyStart(s);
       if BodyEnd(s) < at + 2 then at == 2 else id == 256 * (s[at] as int) + s[at + 1]
  }

  ghost predicate IsPubrel(e: Event, id: nat) {
    e.Received? && e.buf.Some? && FromAck(e.buf.value, PUBREL, id)
  }

  /** The history ends with a PUBREL that was read and its PUBCOMP, sent in full. */
  ghost predicate Completed(log: Log, id: nat) {
    && log != [] && log[|log| - 1] == Sent(P.AckBytes(PUBCOMP, 0, id), 4)
    && LastRead(log).Some? && FromAck(LastRead(log).value, PUBREL, id)
  }

  /** Nothing comes from nowhere: what was read came from the network, each delivery is of the PUBLISH
      just read, each release is of a PUBREL just answered, each acknowledgement and each answer to a
      ping was read, the session is discarded only as a connection is closed, and a connection begins
      only after its CONNECT went out, for the reasons `Opened` gives. QoS 2 messages are delivered
      when their identifier is not open, and released when it is. */
  ghost predicate Orderly(log: Log) {
    log == [] ||
    (Orderly(log[..|log| - 1]) && OrderlyStep(log[..|log| - 1], Open(log[..|log| - 1]), log[|log| - 1]))
  }

  ghost predicate OrderlyStep(log: Log, open: set<nat>, e: Event) {
    match e
    case Received(taken, buf) => buf.Some? ==> GoodPacket(taken, buf.value)
    case Sent(packet, count) => count <= |packet|
    case Delivered(m, id) =>
      && JustRead(log).Some? && FromPublish(JustRead(log).value, m, id)
      && (IsQos2(e) ==> id !in open && id != 0)
    case Released(id) => id in open && Completed(log, id)
    case Acked(kind, id) =>
      kind in {PUBACK, PUBCOMP} && LastRead(log).Some? && FromAck(LastRead(log).value, kind, id)
    case PingAnswered => JustRead(log).Some? && IsOfType(JustRead(log).value, PINGRESP)
    case Cleared => log != [] && log[|log| - 1] == Closed
    case Connected => Asked(log) && Opened(log)
    case _ => true
  }

  /** Why a connection may begin: with no publish in flight a CONNACK with code 0 was just read; with
      one in flight an acknowledgement of the type it waits for was just taken, whatever identifier that
      had, or, if it has QoS 0, it just went out in full. In these two cases no CONNACK is needed. */
  ghost predicate Opened(log: Log) {
    || (InFlight(log).None? && LastRead(log).Some? && IsWelcome(LastRead(log).value))
    || (log != [] && log[|log| - 1].Acked? && AwaitedBy(InFlight(log[..|log| - 1]), log[|log| - 1].kind))
    || (log != [] && InFlight(log).Some? && InFlight(log).value.qos == 0
        && log[|log| - 1] == Sent(P.PublishBytes(InFlight(log).value), |P.PublishBytes(InFlight(log).value)|))
  }

  /** The type of acknowledgement a publish waits for. */
  predicate AwaitedBy(m: Option<P.Message>, kind: nat) {
    m.Some? && ((m.value.qos == 1 && kind == PUBACK) || (m.value.qos == 2 && kind == PUBCOMP))
  }

  /** The result of reading a CONNACK, the second byte of its body; one that is cut short counts as code 0
      when its length field is one byte, and as a failure otherwise. */
  function CodeIn(s: bytes): int
    requires Framed(s, 2)
  {
    var at := BodyStart(s);
    if BodyEnd(s) >= at + 2 then s[at + 1] else if at == 2 then 0 else -1
  }

  ghost predicate IsWelcome(s: bytes) {
    Framed(s, 2) && TypeOf(s[0]) == CONNACK && CodeIn(s) == 0
  }

  /** The packet types, and 0 for none, after which cycle succeeds. */
  predicate Handles(packetType: int) {
    packetType in {0, CONNACK, PUBLISH, PUBACK, PUBREC, PUBREL, PUBCOMP, SUBACK, PINGRESP}
  }

  predicate IsOfType(s: bytes, kind: int) {
    s != [] && TypeOf(s[0]) == kind
  }

  ghost predicate GoodPacket(taken: bytes, s: bytes) {
    Framed(s, 2) && TypeOf(s[0]) >= 2 && Arrived(taken, s)
  }

  function PingBytes(): bytes {
    C.ZeroBytes(PINGREQ)
  }

  /** Pings sent in full and not answered since the last answer, connect or close. */
  ghost function Pings(log: Log): nat {
    if log == [] then 0 else PingsStep(Pings(log[..|log| - 1]), log[|log| - 1])
  }

  ghost function PingsStep(pings: nat, e: Event): nat {
    if e == Sent(PingBytes(), |PingBytes()|) then pings + 1
    else if e.PingAnswered? || e.Connected? || e.Closed? then 0
    else pings
  }

  /** The publish kept for resending: the last one stored, unless acknowledged or discarded. */
  ghost function InFlight(log: Log): Option<P.Message> {
    if log == [] then None else InFlightStep(InFlight(log[..|log| - 1]), log[|log| - 1])
  }

  ghost function InFlightStep(kept: Option<P.Message>, e: Event): Option<P.Message> {
    match e
    case Kept(m) => if m.id == 0 then None else Some(m)
    case Acked(_, id) => if kept.Some? && kept.value.id == id then None else kept
    case Cleared => None
    case _ => kept
  }

  /** Everything that has reached the network. */
  ghost function OnWire(log: Log): bytes {
    if log == [] then [] else OnWire(log[..|log| - 1]) + WireStep(log[|log| - 1])
  }

  ghost function WireStep(e: Event): bytes {
    if e.Sent? && e.count <= |e.packet| then e.packet[..e.count] else []
  }

  /** Everything that has been taken from the network. */
  ghost function Heard(log: Log): bytes {
    if log == [] then [] else Heard(log[..|log| - 1]) + HeardStep(log[|log| - 1])
  }

  ghost function HeardStep(e: Event): bytes {
    if e.Received? then e.taken else []
  }

  /** Whether a connection has begun and not ended. */
  ghost predicate Up(log: Log) {
    log != [] && UpStep(Up(log[..|log| - 1]), log[|log| - 1])
  }

  predicate UpStep(up: bool, e: Event) {
    e.Connected? || (up && !e.Closed?)
  }

  /** Whether the CONNECT handed over last went out in full, and no connection has begun since. */
  ghost predicate Asked(log: Log) {
    log != [] && AskedStep(Asked(log[..|log| - 1]), log[|log| - 1])
  }

  predicate AskedStep(asked: bool, e: Event) {
    if e.Sent? && IsOfType(e.packet, CONNECT) then e.count == |e.packet| else asked && !e.Connected?
  }

  /** What one more event does to all of these. */
  lemma Step(log: Log, e: Event)
    ensures Open(log + [e]) == OpenStep(Open(log), e)
    ensures Orderly(log + [e]) <==> Orderly(log) && OrderlyStep(log, Open(log), e)
    ensures Heard(log + [e]) == Heard(log) + HeardStep(e)
    ensures Up(log + [e]) == UpStep(Up(log), e)
    ensures Asked(log + [e]) == AskedStep(Asked(log), e)
    ensures Pings(log + [e]) == PingsStep(Pings(log), e)
    ensures InFlight(log + [e]) == InFlightStep(InFlight(log), e)
    ensures OnWire(log + [e]) == OnWire(log) + WireStep(e)
  {
    hide OpenStep, OrderlyStep, PingsStep, InFlightStep, WireStep, HeardStep, UpStep, AskedStep;
    After(log, e);
  }

  const MAX_PINGS: nat := 6
  const MAX_PACKET_ID: nat := 65535

  /** What the client keeps for resending: the identifier, QoS and length, and the buffer. */
  datatype Slot = Slot(id: nat, qos: nat, length: nat, buf: bytes)

  /** The slot holds the publish that is in flight. */
  ghost predicate Keeps(kept: Option<P.Message>, slot: Slot) {
    match kept
    case None => slot.id == 0
    case Some(m) =>
      && slot.id == m.id > 0 && slot.qos == m.qos
      && m.id <= MAX_PACKET_ID && m.qos <= 2 && m.dup < 2 && m.retained < 2
      && slot.length == |P.PublishBytes(m)| <= |slot.buf|
      && slot.buf[..slot.length] == P.PublishBytes(m) && |P.PublishBody(m)| <= MAX_VALUE
  }

  /** The values in a client's fields are what its history says. */
  ghost predicate Tracks(log: Log, ids: set<nat>, pings: nat, sent: bytes, slot: Slot) {
    && Orderly(log) && ids == Open(log)
    && pings == Pings(log) <= MAX_PINGS
    && sent == OnWire(log)
    && Keeps(InFlight(log), slot)
  }

  lemma TracksNothing(slot: Slot)
    requires slot.id == 0
    ensures Tracks([], {}, 0, [], slot)
  {
  }

  lemma TracksSays(log: Log, ids: set<nat>, pings: nat, sent: bytes, slot: Slot)
    requires Tracks(log, ids, pings, sent, slot)
    ensures Orderly(log) && ids == Open(log) && Keeps(InFlight(log), slot) && pings == Pings(log) <= MAX_PINGS
    ensures sent == OnWire(log)
  {
  }

  lemma TracksWhich(log: Log, ids: set<nat>, pings: nat, sent: bytes, slot: Slot)
    requires Tracks(log, ids, pings, sent, slot)
    ensures slot.id > 0 <==> InFlight(log).Some?
  {
  }

  /** One more event that does not concern the kept publish. */
  lemma TracksOn(log: Log, ids: set<nat>, pings: nat, sent: bytes, slot: Slot, e: Event)
    requires Tracks(log, ids, pings, sent, slot)
    requires !e.Kept? && !e.Acked? && !e.Cleared?
    requires OrderlyStep(log, ids, e) && (PingsStep(pings, e) <= pings || pings < MAX_PINGS)
    ensures Tracks(log + [e], OpenStep(ids, e), PingsStep(pings, e), sent + WireStep(e), slot)
    ensures Open(log) == ids && Open(log + [e]) == OpenStep(ids, e) && InFlight(log + [e]) == InFlight(log)
    ensures Pings(log) == pings && Heard(log + [e]) == Heard(log) + HeardStep(e)
    ensures Up(log + [e]) == UpStep(Up(log), e)
  {
    hide Open, Orderly, Pings, InFlight, OnWire, Heard, Up, Keeps, OpenStep, OrderlyStep, WireStep, HeardStep, UpStep;
    Step(log, e);
  }

  lemma TracksReceived(log: Log, ids: set<nat>, pings: nat, sent: bytes, slot: Slot, taken: bytes, buf: Option<bytes>)
    requires Tracks(log, ids, pings, sent, slot)
    requires buf.Some? ==> GoodPacket(taken, buf.value)
    ensures Tracks(log + [Received(taken, buf)], ids, pings, sent, slot)
    ensures Heard(log + [Received(taken, buf)]) == Heard(log) + taken && Up(log + [Received(taken, buf)]) == Up(log)
    ensures JustRead(log + [Received(taken, buf)]) == buf
    ensures Open(log + [Received(taken, buf)]) == Open(log)
  {
    hide Tracks, GoodPacket, Open, Heard, Up, InFlight, Pings;
    assert sent + [] == sent;
    TracksOn(log, ids, pings, sent, slot, Received(taken, buf));
  }

  lemma TracksSent(log: Log, ids: set<nat>, pings: nat, sent: bytes, slot: Slot, packet: bytes, count: nat)
    requires Tracks(log, ids, pings, sent, slot) && count <= |packet|
    requires packet == PingBytes() && count == |packet| ==> pings < MAX_PINGS
    ensures var e := Sent(packet, count);
            Tracks(log + [e], ids, PingsStep(pings, e), sent + packet[..count], slot)
    ensures Open(log + [Sent(packet, count)]) == Open(log) == ids
    ensures InFlight(log + [Sent(packet, count)]) == InFlight(log)
    ensures Pings(log) == pings && Heard(log + [Sent(packet, count)]) == Heard(log)
    ensures Up(log + [Sent(packet, count)]) == Up(log)
    ensures LastRead(log + [Sent(packet, count)]) == JustRead(log)
  {
    hide Tracks, Open, Heard, Up, InFlight, Pings, PingBytes, JustRead;
    assert (log + [Sent(packet, count)])[..|log|] == log;
    TracksOn(log, ids, pings, sent, slot, Sent(packet, count));
    assert Heard(log) + [] == Heard(log);
  }

  /** Events of the connection and of pings. */
  lemma TracksMark(log: Log, ids: set<nat>, pings: nat, sent: bytes, slot: Slot, e: Event)
    requires Tracks(log, ids, pings, sent, slot)
    requires e in {PingAnswered, PingTimeout, Connected, Closed}
    requires e == Connected ==> Asked(log) && Opened(log)
    requires e == PingAnswered ==> JustRead(log).Some? && IsOfType(JustRead(log).value, PINGRESP)
    ensures Tracks(log + [e], ids, if e == PingTimeout then pings else 0, sent, slot)
    ensures Open(log + [e]) == Open(log) && InFlight(log + [e]) == InFlight(log)
    ensures Pings(log) == pings && Heard(log + [e]) == Heard(log) && Up(log + [e]) == UpStep(Up(log), e)
  {
    hide Tracks, Open, Heard, Up, InFlight, Pings, PingBytes, JustRead, IsOfType, Asked, Opened;
    assert sent + [] == sent && Heard(log) + [] == Heard(log);
    TracksOn(log, ids, pings, sent, slot, e);
  }

  lemma TracksDelivered(log: Log, ids: set<nat>, pings: nat, sent: bytes, slot: Slot, m: P.Found, id: nat)
    requires Tracks(log, ids, pings, sent, slot)
    requires JustRead(log).Some? && FromPublish(JustRead(log).value, m, id)
    requires m.qos == EXACTLY_ONCE ==> id !in ids && id != 0
    ensures Tracks(log + [Delivered(m, id)], if m.qos == EXACTLY_ONCE then ids + {id} else ids, pings, sent, slot)
    ensures Heard(log + [Delivered(m, id)]) == Heard(log) && Up(log + [Delivered(m, id)]) == Up(log)
  {
    hide Tracks, FromPublish, JustRead, Heard, Up;
    assert sent + [] == sent && Heard(log) + [] == Heard(log);
    TracksOn(log, ids, pings, sent, slot, Delivered(m, id));
  }

  lemma TracksReleased(log: Log, ids: set<nat>, pings: nat, sent: bytes, slot: Slot, id: nat)
    requires Tracks(log, ids, pings, sent, slot) && id in ids && Completed(log, id)
    ensures Tracks(log + [Released(id)], ids - {id}, pings, sent, slot)
    ensures Heard(log + [Released(id)]) == Heard(log) && Up(log + [Released(id)]) == Up(log)
  {
    hide Tracks, Completed, Heard, Up;
    assert sent + [] == sent && Heard(log) + [] == Heard(log);
    TracksOn(log, ids, pings, sent, slot, Released(id));
  }

  lemma TracksCleared(log: Log, ids: set<nat>, pings: nat, sent: bytes, slot: Slot, slot': Slot)
    requires Tracks(log, ids, pings, sent, slot) && slot'.id == 0
    requires log != [] && log[|log| - 1] == Closed
    ensures Tracks(log + [Cleared], {}, pings, sent, slot')
    ensures Heard(log + [Cleared]) == Heard(log) && Up(log + [Cleared]) == Up(log)
  {
    hide Open, Orderly, Pings, InFlight, OnWire, Heard, Up;
    Step(log, Cleared);
    assert sent + [] == sent && Heard(log) + [] == Heard(log);
  }

  lemma TracksKept(log: Log, ids: set<nat>, pings: nat, sent: bytes, slot: Slot, m: P.Message, buf: bytes)
    requires Tracks(log, ids, pings, sent, slot)
    requires m.id <= MAX_PACKET_ID && m.qos <= 2 && m.dup < 2 && m.retained < 2
    requires |P.PublishBody(m)| <= MAX_VALUE && |P.PublishBytes(m)| <= |buf|
    requires buf[..|P.PublishBytes(m)|] == P.PublishBytes(m)
    ensures Tracks(log + [Kept(m)], ids, pings, sent, Slot(m.id, m.qos, |P.PublishBytes(m)|, buf))
    ensures Heard(log + [Kept(m)]) == Heard(log) && Up(log + [Kept(m)]) == Up(log)
  {
    hide Open, Orderly, Pings, InFlight, OnWire, Heard, Up, P.PublishBytes, P.PublishBody;
    Step(log, Kept(m));
    assert sent + [] == sent && Heard(log) + [] == Heard(log);
  }

  /** An acknowledgement with the identifier of the kept publish ends the keeping. */
  lemma TracksAcked(log: Log, ids: set<nat>, pings: nat, sent: bytes, slot: Slot, kind: nat, id: nat)
    requires Tracks(log, ids, pings, sent, slot)
    requires kind in {PUBACK, PUBCOMP} && LastRead(log).Some? && FromAck(LastRead(log).value, kind, id)
    ensures Tracks(log + [Acked(kind, id)], ids, pings, sent, if slot.id == id then slot.(id := 0) else slot)
    ensures Heard(log + [Acked(kind, id)]) == Heard(log) && Up(log + [Acked(kind, id)]) == Up(log)
  {
    hide Open, Orderly, Pings, InFlight, OnWire, Heard, Up, P.PublishBytes, P.PublishBody, FromAck, LastRead;
    Step(log, Acked(kind, id));
    assert sent + [] == sent && Heard(log) + [] == Heard(log);
  }

  /** Events of the receiving side: nothing is stored or acknowledged, no connection is asked for or
      begins; whether the session may be discarded depends on the state. */
  predicate Quiet(e: Event, mayClear: bool) {
    && !e.Kept? && !e.Acked? && !e.Connected? && (e.Cleared? ==> mayClear)
    && (e.Sent? ==> !IsOfType(e.packet, CONNECT))
  }

  /** `after` continues `before` with such events only. */
  ghost predicate Grew(before: Log, after: Log, mayClear: bool) {
    && before <= after
    && forall i :: |before| <= i < |after| ==> Quiet(after[i], mayClear)
  }

  lemma GrewMore(before: Log, now: Log, after: Log, mayClear: bool)
    requires Grew(before, now, mayClear) && Grew(now, after, mayClear)
    ensures Grew(before, after, mayClear)
  {
    assert before <= after;
    forall i | |before| <= i < |after| ensures Quiet(after[i], mayClear) {
      if i < |now| {
        assert after[i] == now[i];
      }
    }
  }

  /** As long as the session is not discarded, receiving leaves the kept publish alone. */
  lemma {:induction false} GrewKeeps(before: Log, after: Log)
    requires Grew(before, after, false)
    ensures InFlight(after) == InFlight(before)
    decreases |after|
  {
    if |after| == |before| {
      assert after == before;
    } else {
      var n := |after| - 1;
      assert forall i :: 0 <= i < n ==> after[..n][i] == after[i];
      assert Grew(before, after[..n], false);
      assert Quiet(after[n], false);
      GrewKeeps(before, after[..n]);
    }
  }

  /** And the asking for a connection. */
  lemma {:induction false} GrewAsked(before: Log, after: Log, mayClear: bool)
    requires Grew(before, after, mayClear)
    ensures Asked(after) == Asked(before)
    decreases |after|
  {
    hide IsOfType;
    if |after| == |before| {
      assert after == before;
    } else {
      var n := |after| - 1;
      assert forall i :: 0 <= i < n ==> after[..n][i] == after[i];
      assert Grew(before, after[..n], mayClear);
      assert Quiet(after[n], mayClear);
      GrewAsked(before, after[..n], mayClear);
    }
  }

  lemma {:induction false} GrewUp(before: Log, after: Log, mayClear: bool)
    requires Grew(before, after, mayClear)
    ensures Up(after) ==> Up(before)
    decreases |after|
  {
    if |after| == |before| {
      assert after == before;
    } else {
      var n := |after| - 1;
      assert forall i :: 0 <= i < n ==> after[..n][i] == after[i];
      assert Grew(before, after[..n], mayClear);
      assert Quiet(after[n], mayClear);
      GrewUp(before, after[..n], mayClear);
    }
  }

  lemma After(log: Log, e: Event)
    ensures (log + [e])[..|log + [e]| - 1] == log && (log + [e])[|log + [e]| - 1] == e
  {
  }

  /** What a PUBLISH gives rise to: the message is delivered, unless it is a QoS 2 message whose
      identifier is 0 or still held, or the table is full; and it is answered according to its QoS. */
  ghost function DeliveryOf(open: set<nat>, m: P.Found, id: nat): Log {
    if m.qos != EXACTLY_ONCE || (id != 0 && id !in open && |open| < IdTable.CAPACITY) then [Delivered(m, id)]
    else []
  }

  ghost function AnswerTo(m: P.Found, id: nat, count: nat): Log {
    if m.qos == 1 then [Sent(P.AckBytes(PUBACK, 0, id), count)]
    else if m.qos == 2 then [Sent(P.AckBytes(PUBREC, 0, id), count)]
    else []
  }

  /** What a PUBREC or PUBREL gives rise to: the release only if all of the PUBCOMP went out. */
  ghost function AckEvents(open: set<nat>, kind: nat, id: nat, count: nat): Log {
    if kind == PUBREC then [Sent(P.AckBytes(PUBREL, 0, id), count)]
    else [Sent(P.AckBytes(PUBCOMP, 0, id), count)] + if count == 4 && id in open then [Released(id)] else []
  }

  /** The packet that was read, if any, has been dealt with, and nothing else has happened: a PUBLISH
      is delivered or dropped and answered under its identifier, a PUBREC or PUBREL is answered and
      the identifier released, a PINGRESP ends the waiting for it, and no other packet has an effect.
      `full` tells whether that is a success: a type that is handled, and an answer that went out in
      full. A PUBLISH, PUBREC or PUBREL cut short whose length field is not one byte long has no effect
      either; the first is a success, the others are not. */
  ghost predicate Dealt(buf: Option<bytes>, before: Log, after: Log, full: bool) {
    match buf
    case None => after == before
    case Some(s) =>
      && Framed(s, 2)
      && var kind := TypeOf(s[0]);
         if kind == PUBLISH then PublishDealt(s, before, after, full)
         else if kind == PUBREC || kind == PUBREL then AckDealt(s, kind, before, after, full)
         else after == (before + if kind == PINGRESP then [PingAnswered] else []) && (full <==> Handles(kind))
  }

  ghost predicate PublishDealt(s: bytes, before: Log, after: Log, full: bool)
    requires Framed(s, 2)
  {
    if P.ParsePublish(s).None? && |Field(s[1..])| != 1 then after == before && full
    else exists m: P.Found, id: nat, count: nat ::
      FromPublish(s, m, id) && PublishAnswered(m, id, count, before, after) && (full <==> FullAnswer(m, count))
  }

  /** No answer is needed, or all of it went out; a QoS of 3 has none. */
  predicate FullAnswer(m: P.Found, count: nat) {
    m.qos == 0 || (m.qos <= 2 && count == 4)
  }

  ghost predicate PublishAnswered(m: P.Found, id: nat, count: nat, before: Log, after: Log) {
    after == before + DeliveryOf(Open(before), m, id) + AnswerTo(m, id, count)
  }

  ghost predicate AckDealt(s: bytes, kind: nat, before: Log, after: Log, full: bool)
    requires Framed(s, 2)
  {
    if P.ParseAck(s).None? && |Field(s[1..])| != 1 then after == before && !full
    else exists id: nat, count: nat ::
      FromAck(s, kind, id) && AckAnswered(kind, id, count, before, after) && (full <==> count == 4)
  }

  ghost predicate AckAnswered(kind: nat, id: nat, count: nat, before: Log, after: Log) {
    after == before + AckEvents(Open(before), kind, id, count)
  }

  /** Dealing with a packet leaves the session alone and reads nothing. */
  lemma DealtGrew(buf: Option<bytes>, before: Log, after: Log, full: bool)
    requires Dealt(buf, before, after, full)
    ensures Grew(before, after, false) && NoneRead(before, after)
  {
    hide P.AckBytes, Open, P.ParsePublish, P.ParseAck, Framed, FromPublish, FromAck, IsOfType;
    AcksAreAcks();
  }

  lemma AckType(kind: nat, id: nat)
    requires kind in {PUBACK, PUBREC, PUBREL, PUBCOMP}
    ensures |P.AckBytes(kind, 0, id)| == 4 && TypeOf(P.AckBytes(kind, 0, id)[0]) == kind
  {
    hide Encode, Header, U16, TypeOf;
    EncodeSmall(2);
    U16Size(id);
    HeaderFields(kind, 0, if kind == PUBREL then 1 else 0, 0);
  }

  lemma AcksAreAcks()
    ensures forall kind, id: nat :: kind in {PUBACK, PUBREC, PUBREL, PUBCOMP} ==>
              !IsOfType(P.AckBytes(kind, 0, id), CONNECT)
  {
    hide P.AckBytes, TypeOf;
    forall kind, id: nat | kind in {PUBACK, PUBREC, PUBREL, PUBCOMP}
      ensures !IsOfType(P.AckBytes(kind, 0, id), CONNECT)
    {
      AckType(kind, id);
    }
  }

  ghost predicate NoneRead(before: Log, after: Log) {
    before <= after && forall i :: |before| <= i < |after| ==> !after[i].Received?
  }

  lemma NoneReadMore(before: Log, now: Log, after: Log)
    requires NoneRead(before, now) && NoneRead(now, after)
    ensures NoneRead(before, after)
  {
    assert forall i :: |before| <= i < |now| ==> after[i] == now[i];
  }

  /** Every packet that arrived whole, fits a buffer of that size and has a type from 2 on was taken
      for read, and every packet that was read was dealt with next. */
  ghost predicate Settled(log: Log, size: nat) {
    forall k :: 0 <= k < |log| && log[k].Received? ==> Heeded(log[k], size) && Responded(log, k)
  }

  ghost predicate Heeded(e: Event, size: nat)
    requires e.Received?
  {
    IsFrame(e.taken) && |Stored(e.taken)| <= size && PacketType(e.taken) >= 2 ==>
      e.buf.Some? && Stored(e.taken) <= e.buf.value
  }

  ghost predicate Responded(log: Log, k: nat)
    requires k < |log| && log[k].Received?
  {
    exists n :: k < n <= |log| && DealtSomehow(log[k].buf, log[..k + 1], log[..n])
  }

  ghost predicate DealtSomehow(buf: Option<bytes>, before: Log, after: Log) {
    Dealt(buf, before, after, true) || Dealt(buf, before, after, false)
  }

  lemma RespondedMore(log: Log, after: Log, k: nat)
    requires k < |log| && log[k].Received? && Responded(log, k) && log <= after
    ensures Responded(after, k)
  {
    hide DealtSomehow;
    var n :| k < n <= |log| && DealtSomehow(log[k].buf, log[..k + 1], log[..n]);
    assert after[..k + 1] == log[..k + 1] && after[..n] == log[..n];
  }

  lemma SettledMore(log: Log, after: Log, size: nat)
    requires Settled(log, size) && NoneRead(log, after)
    ensures Settled(after, size)
  {
    hide Responded, Heeded;
    forall k | 0 <= k < |after| && after[k].Received? ensures Heeded(after[k], size) && Responded(after, k) {
      assert after[k] == log[k];
      RespondedMore(log, after, k);
    }
  }

  lemma SettledDealt(log: Log, e: Event, dealt: Log, after: Log, full: bool, size: nat)
    requires Settled(log, size) && e.Received? && Heeded(e, size)
    requires Dealt(e.buf, log + [e], dealt, full) && NoneRead(log + [e], dealt) && NoneRead(dealt, after)
    ensures Settled(after, size)
  {
    hide Responded, Dealt, Heeded;
    var now := log + [e];
    NoneReadMore(now, dealt, after);
    forall k | 0 <= k < |after| && after[k].Received? ensures Heeded(after[k], size) && Responded(after, k) {
      if k < |log| {
        assert after[k] == now[k] == log[k];
        RespondedMore(log, after, k);
      } else {
        assert k == |log| && after[k] == now[k] == e;
        RespondedBy(after, k, now, dealt, full);
      }
    }
  }

  lemma RespondedBy(log: Log, k: nat, now: Log, dealt: Log, full: bool)
    requires k < |log| && log[k].Received? && |now| == k + 1 && now <= dealt <= log
    requires Dealt(log[k].buf, now, dealt, full)
    ensures Responded(log, k)
  {
    hide Dealt;
    assert log[..k + 1] == now && log[..|dealt|] == dealt;
  }

  lemma SettledOn(log: Log, e: Event, size: nat)
    requires !e.Received?
    ensures Settled(log, size) ==> Settled(log + [e], size)
  {
    hide Settled;
    if Settled(log, size) {
      SettledMore(log, log + [e], size);
    }
  }

  /** How often an event of some kind occurs. */
  ghost function Count(log: Log, p: Event -> bool): nat {
    if log == [] then 0
    else Count(log[..|log| - 1], p) + if p(log[|log| - 1]) then 1 else 0
  }

  /** Number of times a clean session discarded the identifier while it was open. */
  ghost function Discards(log: Log, id: nat): nat {
    if log == [] then 0
    else
      var before := log[..|log| - 1];
      Discards(before, id) + if log[|log| - 1].Cleared? && id in Open(before) then 1 else 0
  }

  /** Conservation of QoS 2 messages: for each identifier, deliveries are releases plus discards,
      plus one if it is still held. */
  lemma {:induction false} Conservation(log: Log, id: nat)
    requires Orderly(log)
    ensures Count(log, e => IsQos2(e) && e.id == id) ==
            Count(log, e => e == Released(id)) + Discards(log, id) + (if id in Open(log) then 1 else 0)
  {
    if log != [] {
      Conservation(log[..|log| - 1], id);
    }
  }

  /** QoS 2, at most once: between two deliveries with the same identifier a PUBREL with that
      identifier was read, or the session was discarded. */
  lemma {:induction false} AtMostOnce(log: Log, i: nat, j: nat)
    requires Orderly(log) && i < j < |log|
    requires IsQos2(log[i]) && IsQos2(log[j]) && log[i].id == log[j].id
    ensures exists k :: i < k < j && (IsPubrel(log[k], log[i].id) || log[k].Cleared?)
  {
    hide FromAck, FromPublish, GoodPacket, P.AckBytes;
    OrderlyAt(log, j);
    if forall k :: i < k < j ==> log[k] != Released(log[i].id) && !log[k].Cleared? {
      StaysOpen(log, i, j);
    } else {
      var k :| i < k < j && (log[k] == Released(log[i].id) || log[k].Cleared?);
      if log[k] == Released(log[i].id) {
        ReleasedAfter(log, k);
        assert IsPubrel(log[k - 2], log[i].id);
      }
    }
  }

  /** What is demanded of an event, at any place of the history. */
  lemma OrderlyAt(log: Log, k: nat)
    requires Orderly(log) && k < |log|
    ensures OrderlyStep(log[..k], Open(log[..k]), log[k])
  {
    hide OrderlyStep;
    OrderlyPrefix(log, k + 1);
    assert log[..k + 1][..k] == log[..k];
  }

  /** An identifier is released only right after its PUBCOMP went out in full, for a PUBREL with
      that identifier read right before. */
  lemma ReleasedAfter(log: Log, k: nat)
    requires Orderly(log) && k < |log| && log[k].Released?
    ensures k >= 2 && log[k - 1] == Sent(P.AckBytes(PUBCOMP, 0, log[k].id), 4) && IsPubrel(log[k - 2], log[k].id)
  {
    hide FromAck, FromPublish, GoodPacket, P.AckBytes;
    OrderlyAt(log, k);
    assert log[..k][..k - 1] == log[..k - 1];
  }

  /** A message is delivered only right after its PUBLISH was read. */
  lemma DeliveredAfter(log: Log, k: nat)
    requires Orderly(log) && k < |log| && log[k].Delivered?
    ensures k >= 1 && log[k - 1].Received? && log[k - 1].buf.Some?
    ensures FromPublish(log[k - 1].buf.value, log[k].message, log[k].id)
  {
    hide FromAck, FromPublish, GoodPacket;
    OrderlyAt(log, k);
  }

  /** The ping count falls only when the connection begins or ends, or a PINGRESP was read. */
  lemma PingsFall(log: Log, k: nat)
    requires Orderly(log) && k < |log| && Pings(log[..k + 1]) < Pings(log[..k])
    ensures log[k] in {Connected, Closed, PingAnswered}
    ensures log[k] == PingAnswered ==>
              k >= 1 && log[k - 1].Received? && log[k - 1].buf.Some? && IsOfType(log[k - 1].buf.value, PINGRESP)
  {
    hide FromAck, FromPublish, GoodPacket, IsOfType, PingBytes, Pings;
    OrderlyAt(log, k);
    assert log[..k + 1] == log[..k] + [log[k]];
    Step(log[..k], log[k]);
  }

  /** A connection begins only after its CONNECT went out in full, and for one of the reasons of
      `Opened`: with nothing in flight, and unless the acknowledgement of what was in flight has just been
      taken, a CONNACK read at most one event before whose return code, the second byte of its body, is 0,
      or which is too short to have one. */
  lemma ConnectedAfter(log: Log, k: nat)
    requires Orderly(log) && k < |log| && log[k] == Connected
    ensures Opened(log[..k]) && k >= 1 && exists i :: 0 <= i < k && Asks(log, i, k)
    ensures InFlight(log[..k]).None? && !log[k - 1].Acked? ==>
              ReadBefore(log, k).Some? &&
              var s := ReadBefore(log, k).value;
              && Framed(s, 2) && s[0] as int / 16 == 2
              && if BodyEnd(s) >= BodyStart(s) + 2 then s[BodyStart(s) + 1] == 0 else BodyStart(s) == 2
  {
    hide Opened, Asks, InFlight, BodyStart, BodyEnd, Framed, Asked, OrderlyStep, Orderly, LastRead, ReadBefore;
    hide IsWelcome;
    ConnectStep(log, k);
    AskedSince(log, k);
    if InFlight(log[..k]).None? && !log[k - 1].Acked? {
      ReadBeforeIs(log, k);
      OpenedBy(log[..k]);
      WelcomeMeans(ReadBefore(log, k).value);
    }
  }

  lemma ConnectStep(log: Log, k: nat)
    requires Orderly(log) && k < |log| && log[k] == Connected
    ensures Opened(log[..k]) && Asked(log[..k])
  {
    hide Opened, Asked;
    OrderlyAt(log, k);
  }

  lemma OpenedBy(log: Log)
    requires Opened(log) && InFlight(log).None? && (log == [] || !log[|log| - 1].Acked?)
    ensures LastRead(log).Some? && IsWelcome(LastRead(log).value)
  {
    hide LastRead, IsWelcome, InFlight;
  }

  lemma WelcomeMeans(s: bytes)
    requires IsWelcome(s)
    ensures Framed(s, 2) && s[0] as int / 16 == 2
    ensures if BodyEnd(s) >= BodyStart(s) + 2 then s[BodyStart(s) + 1] == 0 else BodyStart(s) == 2
  {
    hide BodyStart, BodyEnd, Framed;
  }

  /** The packet that was read right before position `k`, or before one packet that was sent there. */
  function ReadBefore(log: Log, k: nat): Option<bytes>
    requires k <= |log|
  {
    if k >= 1 && log[k - 1].Received? then log[k - 1].buf
    else if k >= 2 && log[k - 1].Sent? && log[k - 2].Received? then log[k - 2].buf
    else None
  }

  lemma ReadBeforeIs(log: Log, k: nat)
    requires k <= |log|
    ensures ReadBefore(log, k) == LastRead(log[..k])
  {
    if k >= 2 {
      assert log[..k][..k - 1] == log[..k - 1];
    }
  }

  /** A CONNECT went out in full at `i`, and none other was handed over nor a connection begun until `k`. */
  ghost predicate Asks(log: Log, i: nat, k: nat)
    requires i < k <= |log|
  {
    && log[i].Sent? && IsOfType(log[i].packet, CONNECT) && log[i].count == |log[i].packet|
    && forall j :: i < j < k ==> log[j] != Connected && !(log[j].Sent? && IsOfType(log[j].packet, CONNECT))
  }

  lemma {:induction false} AskedSince(log: Log, k: nat)
    requires k <= |log|
    ensures Asked(log[..k]) <==> exists i :: 0 <= i < k && Asks(log, i, k)
    decreases k
  {
    hide IsOfType;
    if k > 0 {
      var n, e := k - 1, log[k - 1];
      AskedSince(log, n);
      assert log[..k][..n] == log[..n];
      if i :| 0 <= i < n && Asks(log, i, n) {
        assert Asks(log, i, k) <==> e != Connected && !(e.Sent? && IsOfType(e.packet, CONNECT));
      }
      if i :| 0 <= i < k && Asks(log, i, k) {
        assert i < n ==> Asks(log, i, n);
      }
      if e.Sent? && IsOfType(e.packet, CONNECT) && e.count == |e.packet| {
        assert Asks(log, n, k);
      }
    }
  }

  lemma {:induction false} OrderlyPrefix(log: Log, n: nat)
    requires Orderly(log) && n <= |log|
    ensures Orderly(log[..n])
    decreases |log|
  {
    if n < |log| {
      OrderlyPrefix(log[..|log| - 1], n);
      assert log[..|log| - 1][..n] == log[..n];
    } else {
      assert log[..n] == log;
    }
  }

  lemma {:induction false} StaysOpen(log: Log, i: nat, j: nat)
    requires i < j <= |log| && IsQos2(log[i])
    requires forall k :: i < k < j ==> log[k] != Released(log[i].id) && !log[k].Cleared?
    ensures log[i].id in Open(log[..j])
    decreases j
  {
    assert log[..j][..j - 1] == log[..j - 1] && log[..j][j - 1] == log[j - 1];
    if i + 1 < j {
      StaysOpen(log, i, j - 1);
    }
  }

  /** Pings that are counted are PINGREQs; anything else sent is not. */
  lemma NotAPing(packet: bytes)
    requires packet != [] && TypeOf(packet[0]) != PINGREQ
    ensures packet != PingBytes()
  {
    C.ZeroOnWire(PINGREQ);
  }

  lemma PublishType(m: P.Message)
    ensures P.PublishBytes(m) != [] && TypeOf(P.PublishBytes(m)[0]) == PUBLISH
  {
    hide Packet, P.PublishBody;
    var h := Header(PUBLISH, m.dup, m.qos, m.retained);
    assert h / 16 == 3;
    PacketFirst(h, P.PublishBody(m));
  }

  /** What can end the keeping of the publish with that identifier: a newer publish, the discarding
      of the session, or an acknowledgement with the identifier, read at most one event before. */
  ghost predicate EndsKeeping(log: Log, k: nat, id: nat)
    requires k < |log|
  {
    || log[k].Kept? || log[k].Cleared?
    || (log[k].Acked? && log[k].id == id && log[k].kind in {PUBACK, PUBCOMP}
        && ReadBefore(log, k).Some? && FromAck(ReadBefore(log, k).value, log[k].kind, id))
  }

  /** A kept publish is dropped only by one of these. */
  lemma {:induction false} KeptUntil(log: Log, i: nat, j: nat)
    requires Orderly(log) && i <= j <= |log| && InFlight(log[..i]).Some?
    requires InFlight(log[..j]) != InFlight(log[..i])
    ensures exists k :: i <= k < j && EndsKeeping(log, k, InFlight(log[..i]).value.id)
    decreases j
  {
    hide FromAck, FromPublish, GoodPacket, LastRead, InFlight;
    if i < j {
      OrderlyAt(log, j - 1);
      assert log[..j] == log[..j - 1] + [log[j - 1]];
      Step(log[..j - 1], log[j - 1]);
      ReadBeforeIs(log, j - 1);
      if InFlight(log[..j - 1]) != InFlight(log[..i]) {
        KeptUntil(log, i, j - 1);
      } else {
        assert EndsKeeping(log, j - 1, InFlight(log[..i]).value.id);
      }
    }
  }
}
