/**
 The stretches of history that the calls of the client add: what one call of cycle does, what waiting
 for a packet does, and what the public calls do. Nothing in a stretch is left open but what the
 network and the timer decide.
 */
module Calls {
  import opened Bytes
  import opened RemainingLength
  import opened Framing
  import opened Fields
  import opened History
  import opened Receive
  import P = PublishCodec
  import S = SubscribeCodec
  import C = ConnectCodec

  const SUCCESS: int := 0
  const FAILURE: int := -1
  const BUFFER_OVERFLOW: int := -2
  /** No packet type, for calls that do not wait for one. */
  const ANY: int := -1

  /** What does not change during a call: whether the session is a clean one, and the buffer size. */
  datatype Setup = Setup(clean: bool, size: nat)

  /** What a call of cycle went through: the history after the packet was dealt with, whether that was
      a success, the history after the keep-alive step, the result of that step, and whether it found
      the timer expired. */
  datatype Pass = Pass(dealt: Log, full: bool, alive: Log, kept: int, expired: bool)

  /** A PUBLISH that is refused; cycle leaves before the keep-alive step then. */
  predicate Unread(read: Option<bytes>) {
    && read.Some? && Framed(read.value, 2) && TypeOf(read.value[0]) == PUBLISH
    && P.ParsePublish(read.value).None? && |Field(read.value[1..])| != 1
  }

  /** The events of closeSession. */
  ghost function Closing(clean: bool): Log {
    [Closed] + if clean then [Cleared] else []
  }

  /** One keep-alive step: nothing before the timer expires, then a ping, or with six outstanding
      the failure instead of it. */
  ghost predicate KeptAlive(before: Log, after: Log, pings: nat, rc: int, expired: bool) {
    if !expired then
      after == before && rc == SUCCESS
    else if pings == MAX_PINGS then
      after == before + [PingTimeout] && rc == FAILURE
    else
      exists count: nat :: after == before + [Sent(PingBytes(), count)] && (rc == SUCCESS <==> count == 2)
  }

  lemma NotExpired(log: Log)
    ensures KeptAlive(log, log, Pings(log), SUCCESS, false)
  {
  }

  /** What a call of cycle did: a packet was read from the network and dealt with, the keep-alive step
      was taken, and the session closed if the call fails on a connection. */
  ghost predicate Passed(before: Log, after: Log, taken: bytes, buf: bytes, rc: int, pass: Pass, setup: Setup) {
    && |after| > |before|
    && var e := after[|before|];
       && e.Received? && e.taken == taken && Heeded(e, setup.size)
       && Dealt(e.buf, before + [e], pass.dealt, pass.full)
       && KeptAlive(pass.dealt, pass.alive, Pings(pass.dealt), pass.kept, pass.expired)
       && after == pass.alive + (if Up(before) && !Handles(rc) then Closing(setup.clean) else [])
       && (pass.expired ==> pass.full && !Unread(e.buf))
       && IsResult(rc, e, buf, pass, setup.size)
  }

  /** The result of readPacket when it leaves no packet for cycle: before any byte was taken, 0 for a
      timeout and a failure for a read error; 1 for a packet that was cut off, an overflow for one that does not fit the
      buffer; or the type of a whole packet of type 0 or 1. So if any byte was taken and no packet of
      type 0, it is a result for which cycle has no case. */
  ghost predicate NoPacket(rc: int, taken: bytes, size: nat) {
    if taken == [] then rc == 0 || rc == FAILURE
    else
      || (rc == PacketType(taken) < 2 && Whole(taken))
      || (rc == 1 && CutOff(taken))
      || (rc == BUFFER_OVERFLOW && TooLong(taken, size))
  }

  /** The result of cycle: the type of the packet that was read, unless a step failed on a packet of a
      type that has a case; without a packet it is that of readPacket, unless the keep-alive step
      failed after a timeout. */
  ghost predicate IsResult(rc: int, e: Event, buf: bytes, pass: Pass, size: nat)
    requires e.Received?
  {
    match e.buf
    case None =>
      if pass.kept == SUCCESS then NoPacket(rc, e.taken, size) && (pass.full <==> rc == 0)
      else rc == FAILURE && NoPacket(0, e.taken, size) && pass.full
    case Some(s) =>
      && s == buf && s != []
      && var kind := TypeOf(s[0]);
         rc == if Handles(kind) && !(pass.full && pass.kept == SUCCESS) then FAILURE else kind
  }

  ghost predicate PassedAs(before: Log, after: Log, rc: int, buf: bytes, setup: Setup) {
    exists taken: bytes, pass: Pass :: Passed(before, after, taken, buf, rc, pass, setup)
  }

  /** So many calls of cycle, none of which failed or returned a packet of the given type. */
  ghost predicate Skips(before: Log, after: Log, n: nat, kind: int, setup: Setup)
    decreases n
  {
    if n == 0 then after == before
    else exists now: Log, rc: int, buf: bytes ::
      Skips(before, now, n - 1, kind, setup) && PassedAs(now, after, rc, buf, setup) && rc >= 0 && rc != kind
  }

  /** Calls of cycle until one returned a packet of the given type, which is in the buffer. */
  ghost predicate Found(before: Log, after: Log, kind: nat, buf: bytes, setup: Setup) {
    exists n: nat, now: Log :: Skips(before, now, n, kind, setup) && PassedAs(now, after, kind, buf, setup)
  }

  /** Calls of cycle until the timer expired. */
  ghost predicate TimedOut(before: Log, after: Log, kind: int, setup: Setup) {
    exists n: nat :: Skips(before, after, n, kind, setup)
  }

  /** Calls of cycle until one failed. */
  ghost predicate Failed(before: Log, after: Log, kind: int, setup: Setup) {
    exists n: nat, now: Log, rc: int, buf: bytes ::
      Skips(before, now, n, kind, setup) && PassedAs(now, after, rc, buf, setup) && rc < 0
  }

  ghost predicate Missed(before: Log, after: Log, kind: int, setup: Setup) {
    TimedOut(before, after, kind, setup) || Failed(before, after, kind, setup)
  }

  /** The private publish: the packet went out, as far as the network took it; for QoS 1 and 2 an
      acknowledgement of the right type was then waited for and taken. Success is exactly that all of
      this was done; nothing compares the identifier of the acknowledgement with that of the publish. */
  ghost predicate Transferred(before: Log, after: Log, packet: bytes, qos: nat, rc: int, buf: bytes, setup: Setup) {
    exists count: nat ::
      count <= |packet| && AckAwaited(before + [Sent(packet, count)], after, count == |packet|, qos, rc, buf, setup)
  }

  ghost predicate AckAwaited(sent: Log, after: Log, whole: bool, qos: nat, rc: int, buf: bytes, setup: Setup) {
    if !whole || (qos != 1 && qos != 2) then
      after == sent && rc == if whole then SUCCESS else FAILURE
    else
      AckTakenOrNot(sent, after, if qos == 1 then PUBACK else PUBCOMP, rc, buf, setup)
  }

  ghost predicate AckTakenOrNot(sent: Log, after: Log, kind: nat, rc: int, buf: bytes, setup: Setup) {
    if rc == SUCCESS then
      && after != [] && Acknowledged(after[|after| - 1], kind, buf)
      && Found(sent, after[..|after| - 1], kind, buf, setup)
    else
      rc == FAILURE &&
      (Missed(sent, after, kind, setup) || (Found(sent, after, kind, buf, setup) && NoAck(buf)))
  }

  /** The event is the taking of the acknowledgement in the buffer, which is of the given type and may
      have any identifier. */
  ghost predicate Acknowledged(e: Event, kind: nat, buf: bytes) {
    e.Acked? && e.kind == kind && FromAck(buf, kind, e.id)
  }

  /** The acknowledgement at the end of the history ends the keeping of the publish exactly when it has
      its identifier. */
  ghost predicate TakenFor(m: P.Message, log: Log) {
    && log != [] && log[|log| - 1].Acked?
    && InFlight(log) == if log[|log| - 1].id == m.id then None else Some(m)
  }

  /** An acknowledgement without an identifier that is refused. */
  predicate NoAck(buf: bytes) {
    Framed(buf, 2) && P.ParseAck(buf).None? && |Field(buf[1..])| != 1
  }

  /** A packet went out in full and its answer was read next; more came so many events. */
  ghost predicate AtOnce(before: Log, after: Log, packet: bytes, taken: bytes, buf: bytes, more: nat) {
    && |after| == |before| + 2 + more
    && before + [Sent(packet, |packet|), Received(taken, Some(buf))] <= after
  }

  /** An acknowledgement was read and taken, and nothing else. */
  ghost predicate ReadAndTook(before: Log, after: Log, taken: bytes, buf: bytes) {
    && |after| == |before| + 2 && after[|before| + 1].Acked?
    && before + [Received(taken, Some(buf))] <= after
  }

  /** The types of packets that cycle answers, and which of them it can answer. */
  predicate Answers(kind: int) {
    kind in {PUBLISH, PUBREC, PUBREL}
  }

  predicate Answerable(s: bytes) {
    s != [] && if TypeOf(s[0]) == PUBLISH then QosOf(s[0]) <= 2 else !NoAck(s)
  }

  /** publish: the message was kept, if the session keeps it, and then transferred. */
  ghost predicate Published(m: P.Message, before: Log, after: Log, keeps: bool, rc: int, buf: bytes, setup: Setup) {
    Transferred(before + if keeps then [Kept(m)] else [], after, P.PublishBytes(m), m.qos, rc, buf, setup)
  }

  /** Where the handshake of connect led: whether the CONNECT went out in full, the history then, the
      result, and the read buffer. */
  datatype Hand = Hand(sent: bool, log: Log, code: int, buf: bytes)

  /** The handshake: the CONNECT went out, as far as the network took it, and a CONNACK was waited for;
      the result is its code. */
  ghost predicate Greeted(before: Log, packet: bytes, hand: Hand, setup: Setup) {
    exists count: nat ::
      && count <= |packet| && (hand.sent <==> count == |packet|)
      && AnswerAwaited(before + [Sent(packet, count)], hand, setup)
  }

  ghost predicate AnswerAwaited(sent: Log, hand: Hand, setup: Setup) {
    if !hand.sent then
      hand.log == sent && hand.code == FAILURE
    else
      || (Found(sent, hand.log, CONNACK, hand.buf, setup) && Framed(hand.buf, 2) && hand.code == CodeIn(hand.buf))
      || (Missed(sent, hand.log, CONNACK, setup) && hand.code == FAILURE)
  }

  /** connect: the handshake. With nothing in flight its result is the result; but a publish in flight
      is transferred again, whatever that result was, and the result is the one of the transfer.
      Success means that a connection begins. */
  ghost predicate ConnectedBy(before: Log, after: Log, packet: bytes, kept: Option<P.Message>, rc: int,
                              hand: Hand, buf: bytes, setup: Setup) {
    && Greeted(before, packet, hand, setup)
    && (rc == SUCCESS ==> after != [] && after[|after| - 1] == Connected)
    && var ended := if rc == SUCCESS then after[..|after| - 1] else after;
       if !hand.sent then rc == FAILURE && after == hand.log
       else match kept
         case None => rc == hand.code && ended == hand.log
         case Some(m) => Transferred(hand.log, ended, P.PublishBytes(m), m.qos, rc, buf, setup)
  }

  /** subscribe and unsubscribe: the packet went out, as far as the network took it, and its answer was
      waited for. `sets` tells whether setMessageHandler is called in the end. */
  ghost predicate Requested(before: Log, after: Log, packet: bytes, kind: nat, signed: bool, rc: int, sets: bool,
                            buf: bytes, setup: Setup) {
    exists count: nat ::
      && count <= |packet|
      && var sent := before + [Sent(packet, count)];
         if count < |packet| then after == sent && rc == FAILURE && !sets
         else RequestAnswered(sent, after, kind, signed, rc, sets, buf, setup)
  }

  ghost predicate RequestAnswered(sent: Log, after: Log, kind: nat, signed: bool, rc: int, sets: bool,
                                  buf: bytes, setup: Setup) {
    var answer := if kind == SUBSCRIBE then SUBACK else UNSUBACK;
    || (Missed(sent, after, answer, setup) && rc == FAILURE && !sets)
    || (&& Found(sent, after, answer, buf, setup) && Framed(buf, 2)
        && (if kind == SUBSCRIBE then
              (sets <==> Granted(buf, signed)) && (rc == SUCCESS || (sets && rc == FAILURE))
            else sets && rc == SUCCESS))
  }

  /** What subscribe takes for a granted subscription: a SUBACK with at most two values of which the
      first is not 0x80, or with none, or one that is cut short with a length field of one byte. */
  predicate Granted(s: bytes, signed: bool)
    requires Framed(s, 2)
  {
    if BodyEnd(s) - BodyStart(s) < 2 then |Field(s[1..])| == 1
    else
      var values := S.ParseSuback(s, signed);
      |values| <= 2 && (values != [] ==> values[0] != 0x80)
  }

  /** A refused subscription, SUBACK with the failure code, is taken for a granted one exactly when the
      char of the platform is signed: 0x80 is read as -128 then. */
  lemma RefusalGranted(s: bytes, id: nat, signed: bool)
    requires id < 65536 && Holds(s, 0, [144, 3, id / 256, id % 256, 0x80]) && |s| >= 7
    ensures Framed(s, 2) && TypeOf(s[0]) == SUBACK && (Granted(s, signed) <==> signed)
  {
    hide Field, Value, IsField;
    HoldsSlice(s, 0, [144, 3, id / 256, id % 256, 0x80]);
    var front := s[0..5];
    assert s[0] == front[0] && s[1] == front[1] && s[4] == front[4];
    SmallField(s[1..]);
    S.NoQos(signed);
    S.QosValuesSnoc([], 0x80, signed);
    assert s[4..5] == [] + [0x80];
  }

  function RequestOf(kind: nat, topic: bytes, qos: int): S.Request {
    S.Request(topic, if kind == SUBSCRIBE then Some(qos) else None)
  }

  /** A ping is no CONNECT. */
  lemma PingIsPing()
    ensures PingBytes() == [192, 0] && !IsOfType(PingBytes(), CONNECT)
  {
    C.ZeroOnWire(PINGREQ);
  }

  lemma AliveQuiet(before: Log, after: Log, pings: nat, rc: int, expired: bool)
    requires KeptAlive(before, after, pings, rc, expired)
    ensures Grew(before, after, false) && NoneRead(before, after)
    ensures rc == SUCCESS ==> after == before || (|after| == |before| + 1 && after[|before|].Sent?)
  {
    hide PingBytes, IsOfType;
    PingIsPing();
  }

  /** The end of a session: no connection, no pings outstanding; and a clean one holds no identifiers and
      keeps no publish, while any other leaves these alone. */
  lemma ClosingMeans(log: Log, clean: bool)
    ensures var after := log + Closing(clean);
            && !Up(after) && Pings(after) == 0 && OnWire(after) == OnWire(log) && Heard(after) == Heard(log)
            && Open(after) == (if clean then {} else Open(log))
            && InFlight(after) == (if clean then None else InFlight(log))
  {
    hide Up, Pings, OnWire, Heard, Open, InFlight, Orderly, OrderlyStep, Asked, AskedStep;
    PingIsPing();
    Step(log, Closed);
    Step(log + [Closed], Cleared);
    assert log + Closing(clean) == if clean then log + [Closed] + [Cleared] else log + [Closed];
    assert OnWire(log) + [] == OnWire(log) && Heard(log) + [] == Heard(log);
  }

  lemma ClosingQuiet(log: Log, clean: bool)
    ensures Grew(log, log + Closing(clean), clean) && NoneRead(log, log + Closing(clean))
  {
  }

  /** A call of cycle keeps, acknowledges and connects nothing, and leaves no packet unanswered. */
  lemma PassedGrew(before: Log, after: Log, taken: bytes, buf: bytes, rc: int, pass: Pass, setup: Setup)
    requires Passed(before, after, taken, buf, rc, pass, setup)
    ensures Grew(before, after, Up(before) && setup.clean)
    ensures Settled(before, setup.size) ==> Settled(after, setup.size)
    ensures rc in {CONNACK, SUBACK, PUBACK, PUBCOMP} ==> LastRead(after) == Some(buf)
  {
    hide Grew, Dealt, KeptAlive, Settled, Pings, NoneRead, Closing, Up, Heeded;
    var e, may := after[|before|], Up(before) && setup.clean;
    var now := before + [e];
    DealtGrew(e.buf, now, pass.dealt, pass.full);
    AliveQuiet(pass.dealt, pass.alive, Pings(pass.dealt), pass.kept, pass.expired);
    GrewMore(now, pass.dealt, pass.alive, false);
    GrewWeaken(now, pass.alive, false, may);
    GrewRead(before, e, may);
    GrewMore(before, now, pass.alive, may);
    assert NoneRead(pass.dealt, after) && Grew(pass.alive, after, may) by {
      GrewNothing(pass.alive);
      assert pass.alive + [] == pass.alive;
      if Up(before) && !Handles(rc) {
        ClosingQuiet(pass.alive, setup.clean);
        NoneReadMore(pass.dealt, pass.alive, after);
      }
    }
    GrewMore(before, pass.alive, after, may);
    if Settled(before, setup.size) {
      SettledDealt(before, e, pass.dealt, after, pass.full, setup.size);
    }
    if rc in {CONNACK, SUBACK, PUBACK, PUBCOMP} {
      DealtNothing(e.buf, now, pass.dealt, pass.full);
      assert after == pass.alive;
      LastReadStays(before, e, after);
    }
  }

  /** A call of cycle that reads a packet without effect, before the timer expires. */
  lemma PassedPlain(before: Log, after: Log, taken: bytes, buf: bytes, rc: int, pass: Pass, setup: Setup)
    requires Passed(before, after, taken, buf, rc, pass, setup) && !pass.expired
    requires rc in {CONNACK, SUBACK, PUBACK, PUBCOMP}
    ensures after == before + [Received(taken, Some(buf))]
  {
    hide Dealt, Heeded, Closing, Up;
    DealtNothing(after[|before|].buf, before + [after[|before|]], pass.dealt, pass.full);
  }

  /** A call of cycle that reads a packet it can deal with, before the timer expires. */
  lemma PassedDealt(before: Log, after: Log, taken: bytes, buf: bytes, kind: nat, pass: Pass, setup: Setup)
    requires Passed(before, after, taken, buf, kind, pass, setup) && !pass.expired
    requires kind >= 2 && Handles(kind)
    ensures Dealt(Some(buf), before + [Received(taken, Some(buf))], after, true)
    ensures buf != [] && TypeOf(buf[0]) == kind
  {
    hide Closing, Up, Heeded, Dealt, Whole, CutOff, TooLong, PacketType, Pings;
    assert pass.alive + [] == pass.alive;
    assert after[|before|] == Received(taken, Some(buf));
  }

  lemma SentThen(before: Log, packet: bytes, now: Log, after: Log, taken: bytes, buf: bytes)
    requires now == before + [Sent(packet, |packet|)]
    ensures now + [Received(taken, Some(buf))] == after ==> AtOnce(before, after, packet, taken, buf, 0)
  {
  }

  lemma AtOnceMore(before: Log, after: Log, packet: bytes, taken: bytes, buf: bytes, e: Event)
    ensures AtOnce(before, after, packet, taken, buf, 0) ==> AtOnce(before, after + [e], packet, taken, buf, 1)
  {
  }

  lemma ThenTook(before: Log, now: Log, taken: bytes, buf: bytes, kind: nat, id: nat)
    ensures now == before + [Received(taken, Some(buf))] ==>
              ReadAndTook(before, now + [Acked(kind, id)], taken, buf)
  {
  }

  /** What came of the waiting, and of the acknowledgement. */
  lemma AckTakenBy(sent: Log, waited: Log, got: int, kind: nat, id: nat, rc: int, buf: bytes, setup: Setup)
    requires if got == kind then Found(sent, waited, kind, buf, setup) else Missed(sent, waited, kind, setup)
    requires if got == kind && rc == SUCCESS then FromAck(buf, kind, id) else rc == FAILURE
    requires got == kind && rc == FAILURE ==> NoAck(buf)
    ensures var after := if rc == SUCCESS then waited + [Acked(kind, id)] else waited;
            AckTakenOrNot(sent, after, kind, rc, buf, setup) && Asked(after) == Asked(waited)
  {
    hide Found, Missed, FromAck, NoAck, Asked;
    Step(waited, Acked(kind, id));
    assert (waited + [Acked(kind, id)])[..|waited|] == waited;
  }

  /** The packet, the acknowledgement that was read, and the taking of it. */
  lemma SentFirst(before: Log, packet: bytes, now: Log, after: Log, taken: bytes, buf: bytes)
    requires now == before + [Sent(packet, |packet|)] || now == after
    ensures ReadAndTook(now, after, taken, buf) ==> AtOnce(before, after, packet, taken, buf, 1)
  {
  }

  lemma DealtNothing(buf: Option<bytes>, before: Log, after: Log, full: bool)
    requires Dealt(buf, before, after, full) && buf.Some? && buf.value != []
    requires TypeOf(buf.value[0]) in {CONNACK, SUBACK, PUBACK, PUBCOMP}
    ensures after == before
  {
  }

  lemma LastReadStays(before: Log, e: Event, after: Log)
    requires e.Received?
    requires after == before + [e] || (|after| == |before| + 2 && before + [e] <= after && after[|before| + 1].Sent?)
    ensures LastRead(after) == e.buf
  {
    if |after| == |before| + 2 {
      assert after[..|after| - 1] == before + [e];
    }
  }

  lemma GrewRead(before: Log, e: Event, may: bool)
    requires e.Received?
    ensures Grew(before, before + [e], may)
  {
  }

  lemma GrewNothing(log: Log)
    ensures Grew(log, log, false) && Grew(log, log, true) && NoneRead(log, log)
  {
  }

  lemma GrewWeaken(before: Log, after: Log, may: bool, may': bool)
    requires Grew(before, after, may) && (may ==> may')
    ensures Grew(before, after, may')
  {
  }

  lemma PassedBy(before: Log, e: Event, after: Log, buf: bytes, rc: int, pass: Pass, setup: Setup)
    requires e.Received? && Heeded(e, setup.size)
    requires Dealt(e.buf, before + [e], pass.dealt, pass.full)
    requires KeptAlive(pass.dealt, pass.alive, Pings(pass.dealt), pass.kept, pass.expired)
    requires before + [e] <= pass.alive && IsResult(rc, e, buf, pass, setup.size)
    requires pass.expired ==> pass.full && !Unread(e.buf)
    requires after == pass.alive + (if Up(before) && !Handles(rc) then Closing(setup.clean) else [])
    ensures Passed(before, after, e.taken, buf, rc, pass, setup)
  {
    hide Dealt, KeptAlive, Pings, Closing, Heeded, IsResult, Up, Unread;
    assert after[|before|] == (before + [e])[|before|];
  }

  /** The first call of cycle, and each further one. */
  lemma SkipsNothing(log: Log, kind: int, setup: Setup)
    ensures Skips(log, log, 0, kind, setup)
  {
  }

  lemma SkipsMore(before: Log, now: Log, after: Log, n: nat, kind: int, rc: int,
                  taken: bytes, buf: bytes, pass: Pass, setup: Setup)
    requires Skips(before, now, n, kind, setup) && Passed(now, after, taken, buf, rc, pass, setup)
    ensures rc >= 0 && rc != kind ==> Skips(before, after, n + 1, kind, setup)
    ensures rc < 0 ==> Failed(before, after, kind, setup)
    ensures rc == kind >= 0 ==> Found(before, after, kind, buf, setup)
  {
    hide Passed;
    assert PassedAs(now, after, rc, buf, setup);
  }

  lemma {:induction false} SkipsGrew(before: Log, after: Log, n: nat, kind: int, setup: Setup)
    requires Skips(before, after, n, kind, setup)
    ensures Grew(before, after, Up(before) && setup.clean)
    decreases n
  {
    hide Grew, Passed, PassedAs, Up;
    if n == 0 {
      GrewNothing(before);
    } else {
      var now: Log, rc: int, buf: bytes :|
        Skips(before, now, n - 1, kind, setup) && PassedAs(now, after, rc, buf, setup) && rc >= 0 && rc != kind;
      SkipsGrew(before, now, n - 1, kind, setup);
      PassedAsGrew(before, now, after, rc, buf, setup);
    }
  }

  /** One more call of cycle. */
  lemma PassedAsGrew(before: Log, now: Log, after: Log, rc: int, buf: bytes, setup: Setup)
    requires Grew(before, now, Up(before) && setup.clean) && PassedAs(now, after, rc, buf, setup)
    ensures Grew(before, after, Up(before) && setup.clean)
  {
    hide Grew, Passed, Up;
    var taken: bytes, pass: Pass :| Passed(now, after, taken, buf, rc, pass, setup);
    PassedGrew(now, after, taken, buf, rc, pass, setup);
    GrewUp(before, now, Up(before) && setup.clean);
    GrewWeaken(now, after, Up(now) && setup.clean, Up(before) && setup.clean);
    GrewMore(before, now, after, Up(before) && setup.clean);
  }

  /** Waiting keeps, acknowledges and connects nothing, whatever comes of it, and discards the session
      only when that is a clean one with a connection. */
  lemma WaitedGrew(before: Log, after: Log, kind: nat, buf: bytes, setup: Setup)
    requires Found(before, after, kind, buf, setup) || Missed(before, after, kind, setup)
    ensures Grew(before, after, Up(before) && setup.clean)
  {
    hide Grew, Skips, PassedAs, Up;
    if Found(before, after, kind, buf, setup) {
      var n: nat, now: Log :| Skips(before, now, n, kind, setup) && PassedAs(now, after, kind, buf, setup);
      SkipsGrew(before, now, n, kind, setup);
      PassedAsGrew(before, now, after, kind, buf, setup);
    } else if TimedOut(before, after, kind, setup) {
      var n: nat :| Skips(before, after, n, kind, setup);
      SkipsGrew(before, after, n, kind, setup);
    } else {
      var n: nat, now: Log, rc: int, b: bytes :|
        Skips(before, now, n, kind, setup) && PassedAs(now, after, rc, b, setup) && rc < 0;
      SkipsGrew(before, now, n, kind, setup);
      PassedAsGrew(before, now, after, rc, b, setup);
    }
  }

  /** When connect succeeds, once its CONNECT went out in full: with nothing in flight exactly when a
      CONNACK with code 0 was read; with a publish of QoS 1 or 2 in flight exactly when an
      acknowledgement of the type it waits for was taken, with one of QoS 0 exactly when it went out. The
      CONNACK, or that there was none, makes no difference then. */
  lemma ConnectMeans(before: Log, after: Log, packet: bytes, kept: Option<P.Message>, rc: int,
                     hand: Hand, buf: bytes, setup: Setup)
    requires ConnectedBy(before, after, packet, kept, rc, hand, buf, setup) && hand.sent
    requires kept.Some? ==> kept.value.qos <= 2
    ensures kept.None? ==> (rc == SUCCESS <==> hand.code == 0)
    ensures hand.code == 0 ==>
              && Found(before + [Sent(packet, |packet|)], hand.log, CONNACK, hand.buf, setup)
              && Framed(hand.buf, 2) && CodeIn(hand.buf) == 0
    ensures hand.code != 0 ==>
              || Missed(before + [Sent(packet, |packet|)], hand.log, CONNACK, setup)
              || (Found(before + [Sent(packet, |packet|)], hand.log, CONNACK, hand.buf, setup)
                  && Framed(hand.buf, 2) && CodeIn(hand.buf) == hand.code)
    ensures kept.Some? && kept.value.qos > 0 ==>
              (rc == SUCCESS <==>
                 |after| >= 2 && after[|after| - 1] == Connected
                 && Acknowledged(after[|after| - 2], if kept.value.qos == 1 then PUBACK else PUBCOMP, buf))
    ensures kept.Some? && kept.value.qos == 0 ==>
              (rc == SUCCESS <==>
                 after == hand.log + [Sent(P.PublishBytes(kept.value), |P.PublishBytes(kept.value)|), Connected])
  {
    hide Found, Missed, Acknowledged, Transferred, P.PublishBytes, CodeIn, Framed, Greeted, AnswerAwaited;
    hide InFlight, Up, TakenFor;
    var ended := if rc == SUCCESS then after[..|after| - 1] else after;
    GreetedMeans(before, packet, hand, setup);
    if kept.Some? {
      var m := kept.value;
      TransferMeans(hand.log, ended, P.PublishBytes(m), m.qos, rc, buf, setup);
    }
    if rc == SUCCESS {
      assert after == ended + [Connected];
    }
  }

  /** Whether a successful connect leaves the publish in flight: one of QoS 1 or 2 is no longer in flight
      exactly when the acknowledgement has its identifier, and one of QoS 0 always stays. */
  lemma ConnectKeeps(before: Log, after: Log, packet: bytes, m: P.Message, hand: Hand, buf: bytes, setup: Setup)
    requires ConnectedBy(before, after, packet, Some(m), SUCCESS, hand, buf, setup)
    requires InFlight(before) == Some(m) && m.qos <= 2 && !Up(before)
    ensures m.qos == 0 ==> InFlight(after) == Some(m)
    ensures m.qos > 0 ==>
              && |after| >= 2 && after[|after| - 2].Acked?
              && InFlight(after) == if after[|after| - 2].id == m.id then None else Some(m)
  {
    hide Found, Missed, FromAck, Transferred, P.PublishBytes, CodeIn, Framed, Greeted, InFlight, Up;
    var ended := after[..|after| - 1];
    GreetedMeans(before, packet, hand, setup);
    TransferMeans(hand.log, ended, P.PublishBytes(m), m.qos, SUCCESS, buf, setup);
    assert after == ended + [Connected];
    BeginKeeps(ended);
    SentKeeps(hand.log, Sent(P.PublishBytes(m), |P.PublishBytes(m)|));
  }

  /** What came of the handshake; it leaves the publish in flight alone, and no connection begins. */
  lemma GreetedMeans(before: Log, packet: bytes, hand: Hand, setup: Setup)
    requires Greeted(before, packet, hand, setup) && hand.sent
    ensures var asked := before + [Sent(packet, |packet|)];
            || (Missed(asked, hand.log, CONNACK, setup) && hand.code == FAILURE)
            || (Found(asked, hand.log, CONNACK, hand.buf, setup)
                && Framed(hand.buf, 2) && CodeIn(hand.buf) == hand.code)
    ensures !Up(before) ==> InFlight(hand.log) == InFlight(before) && !Up(hand.log)
  {
    hide Found, Missed, CodeIn, Framed, InFlight, Up, Grew;
    var asked := before + [Sent(packet, |packet|)];
    Step(before, Sent(packet, |packet|));
    WaitedGrew(asked, hand.log, CONNACK, hand.buf, setup);
    GrewUp(asked, hand.log, Up(asked) && setup.clean);
    if !Up(before) {
      GrewKeeps(asked, hand.log);
    }
  }

  /** What a success and a failure of the private publish mean. Without a clean session that may be
      discarded meanwhile, a success leaves a publish in flight, whose acknowledgement it is not. */
  lemma TransferMeans(before: Log, after: Log, packet: bytes, qos: nat, rc: int, buf: bytes, setup: Setup)
    requires Transferred(before, after, packet, qos, rc, buf, setup)
    ensures rc == SUCCESS && (qos == 1 || qos == 2) ==>
              after != [] && Acknowledged(after[|after| - 1], if qos == 1 then PUBACK else PUBCOMP, buf)
    ensures rc == SUCCESS && (qos == 1 || qos == 2) && InFlight(before).Some? && !(Up(before) && setup.clean) ==>
              && after != [] && InFlight(after[..|after| - 1]) == InFlight(before)
              && TakenFor(InFlight(before).value, after)
    ensures rc == SUCCESS && qos != 1 && qos != 2 ==> after == before + [Sent(packet, |packet|)]
    ensures rc != SUCCESS ==> after != [] && after[|after| - 1] != Connected
  {
    hide Found, Missed, FromAck, NoAck, Grew, InFlight, Up, InFlightStep;
    var count: nat :| count <= |packet|
      && AckAwaited(before + [Sent(packet, count)], after, count == |packet|, qos, rc, buf, setup);
    var sent := before + [Sent(packet, count)];
    SentKeeps(before, Sent(packet, count));
    var kind := if qos == 1 then PUBACK else PUBCOMP;
    if rc != SUCCESS && after != sent {
      WaitedGrew(sent, after, kind, buf, setup);
      NotConnected(sent, after, Up(sent) && setup.clean);
    } else if rc == SUCCESS && (qos == 1 || qos == 2) {
      var waited := after[..|after| - 1];
      WaitedGrew(sent, waited, kind, buf, setup);
      assert after == waited + [after[|after| - 1]];
      AckedIs(waited, after[|after| - 1]);
      if !(Up(before) && setup.clean) {
        GrewKeeps(sent, waited);
      }
    }
  }

  lemma SentKeeps(log: Log, e: Event)
    requires e.Sent?
    ensures InFlight(log + [e]) == InFlight(log) && Up(log + [e]) == Up(log)
  {
    hide Open, Orderly, OrderlyStep;
    Step(log, e);
  }

  lemma BeginKeeps(log: Log)
    ensures InFlight(log + [Connected]) == InFlight(log)
  {
    Step(log, Connected);
  }

  lemma AckedIs(log: Log, e: Event)
    requires e.Acked?
    ensures InFlight(log + [e]) ==
            if InFlight(log).Some? && InFlight(log).value.id == e.id then None else InFlight(log)
  {
    hide Open, Orderly, OrderlyStep;
    Step(log, e);
  }

  lemma NotConnected(sent: Log, after: Log, may: bool)
    requires sent != [] && sent[|sent| - 1].Sent? && Grew(sent, after, may)
    ensures after != [] && after[|after| - 1] != Connected
  {
    assert |after| > |sent| ==> Quiet(after[|after| - 1], may);
  }
}
