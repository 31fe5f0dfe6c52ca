/**
 Histories that the calls of the client admit, one for each place where the client does not do what its
 names say. Each goes on from any history that meets the stated conditions.
 */
module Cases {
  import opened Bytes
  import opened RemainingLength
  import opened Framing
  import opened Fields
  import opened History
  import opened Receive
  import opened Calls
  import P = PublishCodec
  import S = SubscribeCodec

  /** Orderly and settled histories stay so. */
  ghost predicate KeepsFaith(before: Log, after: Log, size: nat) {
    (Orderly(before) ==> Orderly(after)) && (Settled(before, size) ==> Settled(after, size))
  }

  /** What stays the same while packets come and go. */
  ghost predicate SameState(before: Log, after: Log) {
    InFlight(after) == InFlight(before) && Up(after) == Up(before) && Asked(after) == Asked(before)
  }

  /** A packet of four bytes, as it comes from the network and as it lies in the buffer. */
  lemma FourBytes(h: byte, a: byte, b: byte)
    ensures var taken, s := [h, 2, a, b], [h, 2, a, b, 0, 0];
            && Framed(s, 2) && BodyStart(s) == 2 && BodyEnd(s) == 4 && Arrived(taken, s)
  {
    hide Field, IsField, Value, Encode;
    var taken, s := [h, 2, a, b], [h, 2, a, b, 0, 0];
    SmallField(s[1..]);
    EncodeSmall(2);
    assert [h] + [2] + [a, b] == taken;
    assert ArrivedAs(taken, s, [2], [a, b]);
  }

  lemma FiveBytes(h: byte, a: byte, b: byte, c: byte)
    ensures var taken, s := [h, 3, a, b, c], [h, 3, a, b, c, 0, 0];
            && Framed(s, 2) && BodyStart(s) == 2 && BodyEnd(s) == 5 && Arrived(taken, s)
  {
    hide Field, IsField, Value, Encode;
    var taken, s := [h, 3, a, b, c], [h, 3, a, b, c, 0, 0];
    SmallField(s[1..]);
    EncodeSmall(3);
    assert [h] + [3] + [a, b, c] == taken;
    assert ArrivedAs(taken, s, [3], [a, b, c]);
  }

  /** One call of cycle that reads a packet which has no effect. */
  lemma PlainPass(before: Log, taken: bytes, s: bytes, kind: nat, pass: Pass, setup: Setup)
    requires GoodPacket(taken, s) && TypeOf(s[0]) == kind && kind in {CONNACK, PUBACK, SUBACK}
    requires var after := before + [Received(taken, Some(s))]; pass == Pass(after, true, after, SUCCESS, false)
    ensures Passed(before, pass.alive, taken, s, kind, pass, setup)
  {
    hide Arrived, IsFrame, Stored, Up, Pings;
    if IsFrame(taken) {
      ArrivedFrame(taken, s);
    }
  }

  lemma ReadsOne(before: Log, taken: bytes, s: bytes, kind: nat, setup: Setup)
    requires GoodPacket(taken, s) && TypeOf(s[0]) == kind && kind in {CONNACK, PUBACK, SUBACK}
    ensures var after := before + [Received(taken, Some(s))];
            && Found(before, after, kind, s, setup)
            && KeepsFaith(before, after, setup.size) && SameState(before, after) && LastRead(after) == Some(s)
  {
    hide Settled, Orderly, GoodPacket, InFlight, Up, Asked, Open, Pings, Grew, Passed, Found, LastRead;
    var e := Received(taken, Some(s));
    var after := before + [e];
    Step(before, e);
    var pass := Pass(after, true, after, SUCCESS, false);
    PlainPass(before, taken, s, kind, pass, setup);
    PassedGrew(before, after, taken, s, kind, pass, setup);
    SkipsNothing(before, kind, setup);
    SkipsMore(before, before, after, 0, kind, kind, taken, s, pass, setup);
  }

  /** A packet that goes out in full, and is no CONNECT. */
  lemma GoesOut(before: Log, packet: bytes, size: nat)
    requires !IsOfType(packet, CONNECT)
    ensures var after := before + [Sent(packet, |packet|)];
            KeepsFaith(before, after, size) && SameState(before, after)
  {
    hide Settled, Orderly, InFlight, Up, Asked, Open, Pings;
    Step(before, Sent(packet, |packet|));
    SettledOn(before, Sent(packet, |packet|), size);
  }

  /** A publish of QoS 1 is transferred, and a PUBACK with the identifier `id` comes. */
  lemma AckedWith(before: Log, m: P.Message, id: nat, setup: Setup) returns (after: Log, buf: bytes)
    requires m.qos == 1 && id < 65536
    ensures Transferred(before, after, P.PublishBytes(m), 1, SUCCESS, buf, setup)
    ensures KeepsFaith(before, after, setup.size) && Up(after) == Up(before) && Asked(after) == Asked(before)
    ensures after != [] && after[|after| - 1] == Acked(PUBACK, id)
    ensures InFlight(after[..|after| - 1]) == InFlight(before)
    ensures InFlight(after) == InFlightStep(InFlight(before), Acked(PUBACK, id))
  {
    hide Settled, Orderly, Arrived, Found, InFlight, Up, Asked, Open, LastRead, P.PublishBytes, Framed;
    hide BodyStart, BodyEnd, InFlightStep;
    var publish, ack := P.PublishBytes(m), Acked(PUBACK, id);
    PublishType(m);
    GoesOut(before, publish, setup.size);
    var sent := before + [Sent(publish, |publish|)];
    FourBytes(64, id / 256, id % 256);
    buf := [64, 2, id / 256, id % 256, 0, 0];
    var taken := [64, 2, id / 256, id % 256];
    ReadsOne(sent, taken, buf, PUBACK, setup);
    var waited := sent + [Received(taken, Some(buf))];
    assert FromAck(buf, PUBACK, id);
    Step(waited, ack);
    SettledOn(waited, ack, setup.size);
    after := waited + [ack];
    assert after[..|after| - 1] == waited;
    assert AckAwaited(sent, after, true, 1, SUCCESS, buf, setup);
  }

  /** The broker refuses the connection with code 5. */
  lemma RefusedWith5(before: Log, packet: bytes, setup: Setup) returns (hand: Hand)
    requires IsOfType(packet, CONNECT)
    ensures Greeted(before, packet, hand, setup) && hand.sent && hand.code == 5 && IsOfType(hand.buf, CONNACK)
    ensures KeepsFaith(before, hand.log, setup.size)
    ensures InFlight(hand.log) == InFlight(before) && Up(hand.log) == Up(before) && Asked(hand.log)
  {
    hide Settled, Orderly, Arrived, Found, InFlight, Up, Asked, Open, LastRead, Framed, BodyStart, BodyEnd;
    Step(before, Sent(packet, |packet|));
    SettledOn(before, Sent(packet, |packet|), setup.size);
    var asked := before + [Sent(packet, |packet|)];
    FourBytes(32, 0, 5);
    var taken, refusal := [32, 2, 0, 5], [32, 2, 0, 5, 0, 0];
    ReadsOne(asked, taken, refusal, CONNACK, setup);
    hand := Hand(true, asked + [Received(taken, Some(refusal))], 5, refusal);
    assert CodeIn(refusal) == 5;
    assert AnswerAwaited(asked, hand, setup);
  }

  /** The broker refuses the connection, the publish in flight is sent again, a PUBACK comes, and connect
      succeeds; so it does when the PUBACK is for another publish, and then this one stays in flight. */
  lemma RefusedYetConnected(before: Log, packet: bytes, m: P.Message, id: nat, setup: Setup)
    returns (after: Log, hand: Hand, buf: bytes)
    requires !Up(before) && InFlight(before) == Some(m) && m.qos == 1 && id < 65536
    requires IsOfType(packet, CONNECT)
    ensures ConnectedBy(before, after, packet, Some(m), SUCCESS, hand, buf, setup)
    ensures hand.sent && hand.code == 5 && IsOfType(hand.buf, CONNACK)
    ensures Up(after) && InFlight(after) == if id == m.id then None else Some(m)
    ensures KeepsFaith(before, after, setup.size)
  {
    hide Settled, Orderly, Greeted, Transferred, InFlight, Up, Asked, Open, LastRead, P.PublishBytes, IsWelcome;
    hand := RefusedWith5(before, packet, setup);
    var ended;
    ended, buf := AckedWith(hand.log, m, id, setup);
    Step(ended, Connected);
    SettledOn(ended, Connected, setup.size);
    after := ended + [Connected];
    assert after[..|after| - 1] == ended;
  }

  /** A message is published, a PUBACK for another one comes, and publish succeeds. The message stays in
      flight. */
  lemma PublishedUnacked(before: Log, m: P.Message, id: nat, setup: Setup) returns (after: Log, buf: bytes)
    requires m.qos == 1 && m.id > 0 && id < 65536 && id != m.id
    ensures Published(m, before, after, true, SUCCESS, buf, setup)
    ensures InFlight(after) == Some(m) && KeepsFaith(before, after, setup.size)
  {
    hide Settled, Orderly, Transferred, InFlight, Up, Asked, Open, P.PublishBytes;
    Step(before, Kept(m));
    SettledOn(before, Kept(m), setup.size);
    after, buf := AckedWith(before + [Kept(m)], m, id, setup);
  }

  /** A subscription is answered by a SUBACK with any identifier that grants a QoS of 0 to 2, and the
      handler is registered. */
  lemma SubscribedByAny(before: Log, packet: bytes, id: nat, qos: nat, signed: bool, setup: Setup)
    returns (after: Log, buf: bytes)
    requires !IsOfType(packet, CONNECT) && id < 65536 && qos <= 2
    ensures Requested(before, after, packet, SUBSCRIBE, signed, SUCCESS, true, buf, setup)
    ensures IsOfType(buf, SUBACK) && Framed(buf, 2) && ReadInt(buf, BodyStart(buf)) == id
    ensures KeepsFaith(before, after, setup.size)
  {
    hide Settled, Orderly, Arrived, Found, InFlight, Up, Asked, LastRead, Framed, BodyStart, BodyEnd, SameState;
    GoesOut(before, packet, setup.size);
    var sent := before + [Sent(packet, |packet|)];
    FiveBytes(144, id / 256, id % 256, qos);
    var taken := [144, 3, id / 256, id % 256, qos];
    buf := [144, 3, id / 256, id % 256, qos, 0, 0];
    ReadsOne(sent, taken, buf, SUBACK, setup);
    after := sent + [Received(taken, Some(buf))];
    assert buf[4..5] == [] + [qos];
    S.NoQos(signed);
    S.QosValuesSnoc([], qos, signed);
    assert Granted(buf, signed);
    assert RequestAnswered(sent, after, SUBSCRIBE, signed, SUCCESS, true, buf, setup);
  }

  /** An unsubscribe is answered by an UNSUBACK with any identifier, and succeeds; and the session is
      closed, and discarded if it is a clean one. */
  lemma UnsubscribedAndClosed(before: Log, packet: bytes, id: nat, signed: bool, setup: Setup)
    returns (after: Log, buf: bytes)
    requires Up(before) && !IsOfType(packet, CONNECT) && id < 65536
    ensures Requested(before, after, packet, UNSUBSCRIBE, signed, SUCCESS, true, buf, setup)
    ensures IsOfType(buf, UNSUBACK) && !Up(after)
    ensures after != [] && after[|after| - 1] == if setup.clean then Cleared else Closed
    ensures KeepsFaith(before, after, setup.size)
  {
    hide Settled, Orderly, Arrived, Found, InFlight, Up, Asked, LastRead, Framed, BodyStart, BodyEnd;
    GoesOut(before, packet, setup.size);
    var sent := before + [Sent(packet, |packet|)];
    FourBytes(176, id / 256, id % 256);
    var taken := [176, 2, id / 256, id % 256];
    buf := [176, 2, id / 256, id % 256, 0, 0];
    after := ReadsUnsuback(sent, taken, buf, setup);
    assert RequestAnswered(sent, after, UNSUBSCRIBE, signed, SUCCESS, true, buf, setup);
  }

  lemma ReadsUnsuback(before: Log, taken: bytes, s: bytes, setup: Setup) returns (after: Log)
    requires GoodPacket(taken, s) && TypeOf(s[0]) == UNSUBACK && Up(before)
    ensures Found(before, after, UNSUBACK, s, setup) && !Up(after)
    ensures after == before + [Received(taken, Some(s))] + Closing(setup.clean)
    ensures KeepsFaith(before, after, setup.size)
  {
    hide Settled, Orderly, Arrived, IsFrame, Stored, InFlight, Up, Asked, Open, Pings, Found;
    var now := before + [Received(taken, Some(s))];
    after := now + Closing(setup.clean);
    if IsFrame(taken) {
      ArrivedFrame(taken, s);
    }
    var pass := Pass(now, false, now, SUCCESS, false);
    assert Passed(before, after, taken, s, UNSUBACK, pass, setup);
    PassedGrew(before, after, taken, s, UNSUBACK, pass, setup);
    SkipsNothing(before, UNSUBACK, setup);
    SkipsMore(before, before, after, 0, UNSUBACK, UNSUBACK, taken, s, pass, setup);
    Step(before, Received(taken, Some(s)));
    Step(now, Closed);
    Step(now + [Closed], Cleared);
    assert after == if setup.clean then now + [Closed] + [Cleared] else now + [Closed];
  }
}
