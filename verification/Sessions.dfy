/**
 Sessions from beginning to end, on a network that delivers what it holds and takes what it is given: what
 the broker sends is written out in bytes, and so is all that the client sends.
 */
module Sessions {
  import opened Bytes
  import opened RemainingLength
  import opened Framing
  import opened Fields
  import opened Readers
  import opened WireBytes
  import opened Receive
  import opened History
  import opened Calls
  import opened MqttClient
  import opened WireHistory
  import P = PublishCodec
  import S = SubscribeCodec
  import C = ConnectCodec

  /** Options that the interface allows, with no keep-alive, for a packet that fits. */
  predicate Usable(o: C.Options, size: nat) {
    && o.WellFormed() && (o.version == 3 || o.version == 4) && o.keepAlive == 0
    && PacketLen(|C.VariableHeader(o) + C.Payload(o)|) <= size
    && 1 + MAX_BYTES <= size <= MAX_PACKET
  }

  /** A client that gets all it waits for, with no keep-alive. */
  ghost predicate Ready(client: Client, size: nat)
    reads client, client.wire, client.source, client.pubbuf, client.table.slots
  {
    client.Valid() && client.Served() && client.size == size && client.keepAliveInterval == 0
    && Pings(client.log) == 0
  }

  /** The client, and all that its calls may change. */
  ghost function Footprint(client: Client): set<object>
    reads client
  {
    {client, client.source, client.wire, client.clock, client.table.slots,
     client.sendbuf, client.readbuf, client.pubbuf}
  }

  /** The history of connect: the CONNECT went out, its answer was read, and perhaps a connection began. */
  ghost predicate Began(log: Log, packet: bytes, code: byte) {
    && |log| == (if code == 0 then 3 else 2)
    && log[0] == Sent(packet, |packet|) && log[1].Received? && (code == 0 ==> log[2] == Connected)
  }

  lemma BeganSays(log: Log, packet: bytes, code: byte)
    requires Began(log, packet, code) && IsOfType(packet, CONNECT)
    ensures OnWire(log) == packet && InFlight(log).None? && Open(log) == {} && Pings(log) == 0
  {
    hide Open, InFlight, Pings, OnWire;
    NothingYet();
    NotAPing(packet);
    var sent, read := [log[0]], [log[0], log[1]];
    PlainStep([], log[0]);
    PlainStep(sent, log[1]);
    PlainStep(read, Connected);
    assert [] + [log[0]] == sent && sent + [log[1]] == read;
    assert code == 0 ==> log == read + [Connected];
    assert code != 0 ==> log == read;
    assert [] + packet[..|packet|] + [] + [] == packet;
  }

  /** A packet other than a ping that was sent, a call of readPacket, or the beginning of a connection. */
  lemma PlainStep(log: Log, e: Event)
    requires (e.Sent? && e.packet != PingBytes()) || e.Received? || e.Connected?
    ensures OnWire(log + [e]) == OnWire(log) + WireStep(e)
    ensures InFlight(log + [e]) == InFlight(log) && Open(log + [e]) == Open(log)
    ensures Pings(log + [e]) == if e.Connected? then 0 else Pings(log)
  {
    hide Open, InFlight, Pings, OnWire, Orderly, OrderlyStep, Heard, HeardStep, Up, UpStep, Asked, AskedStep;
    hide PingBytes, WireStep;
    Step(log, e);
  }

  lemma BeganBy(log: Log, packet: bytes, taken: bytes, buf: bytes, code: byte)
    requires AtOnce([], log, packet, taken, buf, if code == 0 then 1 else 0)
    requires code == 0 ==> log[|log| - 1] == Connected
    ensures Began(log, packet, code)
  {
    var first := [] + [Sent(packet, |packet|), Received(taken, Some(buf))];
    assert log[0] == first[0] && log[1] == first[1];
  }

  lemma NothingYet()
    ensures Open([]) == {} && InFlight([]).None? && Pings([]) == 0 && OnWire([]) == [] && !Up([])
  {
  }

  method Make(size: nat, stream: bytes) returns (client: Client)
    requires 1 + MAX_BYTES <= size <= MAX_PACKET
    ensures fresh(Footprint(client)) && client.Valid() && client.Served() && client.size == size
    ensures client.log == [] && !client.isconnected && client.nextId == 0 && client.pingOutstanding == 0
    ensures client.source.stream == stream
  {
    hide Tracks, Settled, Heard, Up;
    var source := new Source(stream, true);
    var wire := new Wire(true);
    var clock := new Clock(true);
    client := new Client(size, source, wire, clock);
    NothingYet();
    TracksSays([], client.table.Ids(), client.pingOutstanding, [], client.Held());
  }

  /** connect, for every answer of the broker: the result is the return code, and the client is connected
      exactly when that is 0. */
  method Begin(size: nat, options: C.Options, flags: byte, code: byte, later: bytes)
    returns (client: Client, rc: int)
    requires Usable(options, size)
    ensures fresh(Footprint(client)) && Ready(client, size)
    ensures rc == code as int && (client.isconnected <==> code == 0)
    ensures Began(client.log, C.ConnectBytes(options), code) && client.source.stream == later
    ensures client.wire.sent == C.ConnectBytes(options) && Open(client.log) == {}
    ensures client.cleansession == (options.cleanSession != 0) && client.nextId == 0
  {
    hide Tracks, Open, InFlight, Settled, Heard, Up, C.ConnectBytes, C.VariableHeader, C.Payload, PacketLen, Pings;
    hide Greeted, Transferred, Opened, TakenFor, Begins, CutOffTo, CodeIn, Framed, AtOnce, Began, Taken, PacketType;
    hide OnWire;
    var connack := [32, 2, flags, code];
    FourAhead(32, flags, code, later, size);
    client := Make(size, connack + later);
    NothingYet();
    ghost var hand;
    rc, hand := client.Connect(options);
    ghost var buf := client.readbuf[..];
    HoldsPrefix(buf, connack);
    Welcome(buf, 32, flags, code);
    BeganBy(client.log, C.ConnectBytes(options), Taken(connack + later, later), buf, code);
    ConnectIs(options);
    BeganSays(client.log, C.ConnectBytes(options), code);
    TracksSays(client.log, client.table.Ids(), client.pingOutstanding, client.wire.sent, client.Held());
  }

  method ConnectAnswered(size: nat, options: C.Options, flags: byte, code: byte, later: bytes)
    returns (rc: int, up: bool, sent: bytes, left: bytes)
    requires Usable(options, size)
    ensures rc == code as int && (up <==> code == 0)
    ensures sent == C.ConnectBytes(options) && left == later
  {
    hide C.ConnectBytes, Usable;
    var client;
    client, rc := Begin(size, options, flags, code, later);
    up, sent, left := client.isconnected, client.wire.sent, client.source.stream;
  }

  lemma ConnectIs(o: C.Options)
    ensures IsOfType(C.ConnectBytes(o), CONNECT)
  {
    ConnectFirst(C.ConnectBytes(o), o);
  }

  lemma HoldsPrefix(s: bytes, x: bytes)
    ensures Holds(s, 0, x) <==> x <= s
  {
  }

  lemma FourAhead(h: byte, a: byte, b: byte, later: bytes, size: nat)
    requires size >= 5
    ensures var f := [h, 2, a, b];
            && Begins(f + later, size) && PacketType(f + later) == h as int / 16
            && forall rest, buf :: CutOffTo(f + later, rest, buf) ==> rest == later && f <= buf
  {
    hide Begins, CutOffTo, PacketType;
    EncodeSmall(2);
    FrameAhead(h, [a, b], later, size);
    assert [h] + [2] + [a, b] == [h, 2, a, b];
  }

  lemma PublishIs(m: P.Message)
    requires m.WellFormed() && |m.topic| < 65536 && m.qos > 0 && m.id == 1
    ensures var body := Text(m.topic) + [0, 1] + m.payload;
            && |P.PublishBody(m)| == |m.topic| + 4 + |m.payload| == |body|
            && P.PublishBytes(m) == [48 + 8 * m.dup + 2 * m.qos + m.retained] + Encode(|body|) + body
  {
    hide Encode, P.PublishBytes, P.PublishBody;
    PublishPacket(m);
  }

  lemma Flows(log: Log, e: Event)
    ensures OnWire(log + [e]) == OnWire(log) + WireStep(e)
  {
    After(log, e);
  }

  lemma OnceParts(before: Log, after: Log, packet: bytes, taken: bytes, buf: bytes)
    requires AtOnce(before, after, packet, taken, buf, 1)
    ensures after != []
    ensures after == before + [Sent(packet, |packet|)] + [Received(taken, Some(buf))] + [after[|after| - 1]]
  {
  }

  lemma PublishedOnWire(before: Log, m: P.Message, after: Log, taken: bytes, buf: bytes)
    requires AtOnce(before + [Kept(m)], after, P.PublishBytes(m), taken, buf, 1)
    requires after[|after| - 1].Acked?
    ensures OnWire(after) == OnWire(before) + P.PublishBytes(m)
  {
    hide OnWire, P.PublishBytes, AtOnce;
    var packet, kept := P.PublishBytes(m), before + [Kept(m)];
    OnceParts(kept, after, packet, taken, buf);
    var sent, read, ack := kept + [Sent(packet, |packet|)], Received(taken, Some(buf)), after[|after| - 1];
    Flows(before, Kept(m));
    Flows(kept, Sent(packet, |packet|));
    Flows(sent, read);
    Flows(sent + [read], ack);
    assert packet[..|packet|] == packet;
    assert OnWire(before) + [] + packet + [] + [] == OnWire(before) + packet;
  }

  /** publish with QoS 1 or 2 in a session that is kept, for every identifier in the acknowledgement: the
      result is success, and the message is no longer kept exactly when the identifier is that of the message,
      which is 1. */
  method PublishAnswered(size: nat, options: C.Options, topic: bytes, payload: bytes, qos: nat, retained: bool,
                         flags: byte, a: byte, b: byte, later: bytes)
    returns (rc: int, kept: bool, sent: bytes, left: bytes)
    requires Usable(options, size) && options.cleanSession == 0
    requires (qos == 1 || qos == 2) && |topic| < 65536 && PacketLen(|topic| + 4 + |payload|) <= size
    ensures rc == 0 && left == later && (kept <==> 256 * (a as int) + b as int != 1)
    ensures var body := Text(topic) + [0, 1] + payload;
            sent == C.ConnectBytes(options) + ([48 + 2 * qos + (if retained then 1 else 0)] + Encode(|body|) + body)
  {
    hide Tracks, Open, InFlight, Settled, Heard, Up, C.ConnectBytes, C.VariableHeader, C.Payload, PacketLen, Pings;
    hide Transferred, Begins, CutOffTo, Framed, AtOnce, Began, Taken, PacketType, OnWire, Encode;
    hide P.PublishBytes, P.PublishBody, NoAck, FromAck, Text;
    var h: byte := if qos == 1 then 64 else 112;
    var client, code := Begin(size, options, flags, 0, [h, 2, a, b] + later);
    FourAhead(h, a, b, later, size);
    TracksSays(client.log, client.table.Ids(), client.pingOutstanding, client.wire.sent, client.Held());
    ghost var before, m := client.log, P.Message(0, qos, if retained then 1 else 0, 1, topic, payload);
    PublishIs(m);
    assert client.isconnected && client.Coming(if qos == 1 then PUBACK else PUBCOMP);
    var id;
    rc, id := client.Publish(topic, payload, qos, retained, 0);
    ghost var buf := client.readbuf[..];
    HoldsPrefix(buf, [h, 2, a, b]);
    AckNamed(buf, h, a, b, 0, 0);
    TransferMeans(before + [Kept(m)], client.log, P.PublishBytes(m), qos, rc, buf, client.Fixed());
    ghost var ack := client.log[|client.log| - 1];
    AckNamed(buf, h, a, b, ack.kind, ack.id);
    PublishedOnWire(before, m, client.log, Taken([h, 2, a, b] + later, later), buf);
    TracksSays(client.log, client.table.Ids(), client.pingOutstanding, client.wire.sent, client.Held());
    kept, sent, left := client.inflightMsgid > 0, client.wire.sent, client.source.stream;
  }

  /** subscribe, for every identifier and every value in the SUBACK: the handler is registered exactly when the
      value is not the failure code 0x80, or is taken for another one because char is signed. */
  method SubscribeAnswered(size: nat, options: C.Options, topic: bytes, qos: nat, signed: bool,
                           flags: byte, a: byte, b: byte, granted: byte, later: bytes)
    returns (rc: int, sets: bool, sent: bytes, left: bytes)
    requires Usable(options, size) && |topic| < 65536 && qos < 256 && PacketLen(|topic| + 5) <= size
    ensures left == later && (sets <==> granted != 128 || signed) && (!sets ==> rc == 0)
    ensures var body := [0, 1] + Text(topic) + [qos];
            sent == C.ConnectBytes(options) + ([130] + Encode(|body|) + body)
  {
    hide Tracks, Open, InFlight, Settled, Heard, Up, C.ConnectBytes, C.VariableHeader, C.Payload, PacketLen, Pings;
    hide Begins, CutOffTo, Framed, AtOnce, Began, Taken, PacketType, OnWire, Encode, S.RequestBytes, S.Entries;
    hide Granted, Text, RequestAnswered;
    var suback := [144, 3, a, b, granted];
    var client, code := Begin(size, options, flags, 0, suback + later);
    FiveAhead(a, b, granted, later, size);
    TracksSays(client.log, client.table.Ids(), client.pingOutstanding, client.wire.sent, client.Held());
    ghost var before, packet := client.log, S.RequestBytes(SUBSCRIBE, 0, 1, [RequestOf(SUBSCRIBE, topic, qos)]);
    SubscribeIs(topic, qos);
    assert client.isconnected && client.Coming(SUBACK);
    rc, sets := client.Request(SUBSCRIBE, topic, qos, signed);
    ghost var buf := client.readbuf[..];
    HoldsPrefix(buf, suback);
    Grants(buf, a, b, granted, signed);
    AnsweredOnWire(before, packet, client.log, Taken(suback + later, later), buf);
    TracksSays(client.log, client.table.Ids(), client.pingOutstanding, client.wire.sent, client.Held());
    sent, left := client.wire.sent, client.source.stream;
  }

  /** unsubscribe, for every identifier in the UNSUBACK: success, and the connection is lost. */
  method UnsubscribeAnswered(size: nat, options: C.Options, topic: bytes, signed: bool,
                             flags: byte, a: byte, b: byte, later: bytes)
    returns (rc: int, sets: bool, up: bool)
    requires Usable(options, size) && |topic| < 65536 && PacketLen(|topic| + 4) <= size
    ensures rc == 0 && sets && !up
  {
    hide Tracks, Open, InFlight, Settled, Heard, Up, C.ConnectBytes, C.VariableHeader, C.Payload, PacketLen, Pings;
    hide Begins, CutOffTo, Framed, AtOnce, Began, Taken, PacketType, OnWire, Encode, S.RequestBytes, S.Entries;
    hide Text, RequestAnswered;
    var client, code := Begin(size, options, flags, 0, [176, 2, a, b] + later);
    FourAhead(176, a, b, later, size);
    TracksSays(client.log, client.table.Ids(), client.pingOutstanding, client.wire.sent, client.Held());
    UnsubscribeSize(topic);
    assert client.isconnected && client.Coming(UNSUBACK);
    rc, sets := client.Request(UNSUBSCRIBE, topic, 0, signed);
    up := client.isconnected;
  }

  lemma UnsubscribeSize(topic: bytes)
    requires |topic| < 65536
    ensures 2 + |S.Entries([RequestOf(UNSUBSCRIBE, topic, 0)])| == |topic| + 4
  {
    hide S.Entries;
    var r := RequestOf(UNSUBSCRIBE, topic, 0);
    RequestEntry(r, []);
    assert [r] + [] == [r];
  }

  lemma SubscribeIs(topic: bytes, qos: nat)
    requires |topic| < 65536 && qos < 256
    ensures var list, body := [RequestOf(SUBSCRIBE, topic, qos)], [0, 1] + Text(topic) + [qos];
            && 2 + |S.Entries(list)| == |body| == |topic| + 5
            && S.RequestBytes(SUBSCRIBE, 0, 1, list) == [130] + Encode(|body|) + body
  {
    hide Encode, S.RequestBytes, S.Entries;
    var r := RequestOf(SUBSCRIBE, topic, qos);
    RequestPacket(1, 0, [r]);
    RequestEntry(r, []);
    assert [r] + [] == [r];
    assert [0, 1] + S.Entries([r]) == [0, 1] + Text(topic) + [qos];
  }

  lemma AnsweredOnWire(before: Log, packet: bytes, after: Log, taken: bytes, buf: bytes)
    requires AtOnce(before, after, packet, taken, buf, 0)
    ensures OnWire(after) == OnWire(before) + packet
  {
    hide OnWire;
    var sent, read := before + [Sent(packet, |packet|)], Received(taken, Some(buf));
    Flows(before, Sent(packet, |packet|));
    Flows(sent, read);
    assert after == sent + [read];
    assert packet[..|packet|] == packet;
    assert OnWire(before) + packet + [] == OnWire(before) + packet;
  }

  lemma FiveAhead(a: byte, b: byte, c: byte, later: bytes, size: nat)
    requires size >= 5
    ensures var f := [144, 3, a, b, c];
            && Begins(f + later, size) && PacketType(f + later) == SUBACK
            && forall rest, buf :: CutOffTo(f + later, rest, buf) ==> rest == later && f <= buf
  {
    hide Begins, CutOffTo, PacketType;
    EncodeSmall(3);
    FrameAhead(144, [a, b, c], later, size);
    assert [144] + [3] + [a, b, c] == [144, 3, a, b, c];
  }

  /** A QoS 2 PUBLISH was read; it was delivered, unless it is held, and answered by its PUBREC. */
  ghost predicate TookPublish(before: Log, after: Log, flags: nat, topic: bytes, a: byte, b: byte, payload: bytes) {
    var id := 256 * (a as int) + b as int;
    var m := P.Found(flags / 8, 2, flags % 2, Some(id), topic, payload, |payload|);
    && |after| > |before| && after[|before|].Received?
    && after == before + [after[|before|]]
         + (if id in Open(before) then [] else [Delivered(m, id)]) + [Sent([80, 2, a, b], 4)]
  }

  lemma PublishPass(before: Log, after: Log, taken: bytes, buf: bytes, pass: Pass, setup: Setup,
                    flags: nat, topic: bytes, a: byte, b: byte, payload: bytes)
    requires Passed(before, after, taken, buf, 3, pass, setup) && !pass.expired
    requires flags / 2 % 4 == 2 && HoldsPublish(buf, flags, topic, a, b, payload)
    requires |Open(before)| < 10 && 256 * (a as int) + b as int != 0
    ensures TookPublish(before, after, flags, topic, a, b, payload)
    ensures Open(after) == Open(before) + {256 * (a as int) + b as int}
    ensures OnWire(after) == OnWire(before) + [80, 2, a, b] && Pings(after) == Pings(before)
  {
    hide Passed, Open, P.ParsePublish, P.AckBytes, HoldsPublish, Framed, OnWire, Pings;
    var id := 256 * (a as int) + b as int;
    PassedDealt(before, after, taken, buf, 3, pass, setup);
    PublishRead(buf, flags, topic, a, b, payload);
    TwoBytesBack(a, b);
    Acknowledgements(id);
    Step(before, Received(taken, Some(buf)));
    assert TookPublish(before, after, flags, topic, a, b, payload);
    var m := P.Found(flags / 8, 2, flags % 2, Some(id), topic, payload, |payload|);
    Answered(before, after[|before|], if id in Open(before) then [] else [Delivered(m, id)], 80, a, b);
  }

  /** A PUBREL for a held message was read; it was answered by its PUBCOMP, and the identifier freed. */
  ghost predicate TookPubrel(before: Log, after: Log, a: byte, b: byte) {
    && |after| > |before| && after[|before|].Received?
    && after == before + [after[|before|]] + [Sent([112, 2, a, b], 4)] + [Released(256 * (a as int) + b as int)]
  }

  lemma PubrelPass(before: Log, after: Log, taken: bytes, buf: bytes, pass: Pass, setup: Setup, a: byte, b: byte)
    requires Passed(before, after, taken, buf, 6, pass, setup) && !pass.expired
    requires Holds(buf, 0, [98, 2, a, b]) && |buf| >= 6 && 256 * (a as int) + b as int in Open(before)
    ensures TookPubrel(before, after, a, b)
    ensures Open(after) == Open(before) - {256 * (a as int) + b as int}
    ensures OnWire(after) == OnWire(before) + [112, 2, a, b] && Pings(after) == Pings(before)
  {
    hide Passed, Open, P.AckBytes, Framed, Holds, FromAck, OnWire, Pings;
    var id := 256 * (a as int) + b as int;
    PassedDealt(before, after, taken, buf, 6, pass, setup);
    AckRead(buf, 98, a, b);
    var read := before + [Received(taken, Some(buf))];
    var n: nat, count: nat :| FromAck(buf, 6, n) && count == 4 && AckAnswered(6, n, count, read, after);
    AckNamed(buf, 98, a, b, 6, n);
    ReadLeavesOpen(before, Received(taken, Some(buf)));
    PubcompThen(read, after, a, b);
    assert TookPubrel(before, after, a, b);
    Freed(before, Received(taken, Some(buf)), a, b);
  }

  lemma ReadLeavesOpen(log: Log, e: Event)
    requires e.Received?
    ensures Open(log + [e]) == Open(log)
  {
    Step(log, e);
  }

  lemma PubcompThen(read: Log, after: Log, a: byte, b: byte)
    requires AckAnswered(6, 256 * (a as int) + b as int, 4, read, after) && 256 * (a as int) + b as int in Open(read)
    ensures after == read + [Sent([112, 2, a, b], 4)] + [Released(256 * (a as int) + b as int)]
  {
    hide Open, P.AckBytes;
    TwoBytesBack(a, b);
    Acknowledgements(256 * (a as int) + b as int);
  }

  lemma Freed(before: Log, e: Event, a: byte, b: byte)
    requires e.Received?
    ensures var id := 256 * (a as int) + b as int;
            var after := before + [e] + [Sent([112, 2, a, b], 4)] + [Released(id)];
            && OnWire(after) == OnWire(before) + [112, 2, a, b] && Pings(after) == Pings(before)
            && Open(after) == Open(before) - {id}
  {
    hide Orderly, Open, InFlight, Pings, OnWire, Heard, Up, Asked, OrderlyStep, HeardStep, AskedStep, UpStep;
    hide InFlightStep;
    Answered(before, e, [], 112, a, b);
    var now := before + [e] + [Sent([112, 2, a, b], 4)];
    assert before + [e] + [] == before + [e];
    Step(now, Released(256 * (a as int) + b as int));
    assert OnWire(now) + [] == OnWire(now);
  }

  /** What the answer to a PUBLISH or PUBREL changes. */
  lemma Answered(before: Log, e: Event, more: Log, h: byte, a: byte, b: byte)
    requires e.Received? && (more == [] || (|more| == 1 && IsQos2(more[0])))
    ensures var after := before + [e] + more + [Sent([h, 2, a, b], 4)];
            && OnWire(after) == OnWire(before) + [h, 2, a, b] && Pings(after) == Pings(before)
            && Open(after) == Open(before) + if more == [] then {} else {more[0].id}
  {
    hide Orderly, Open, InFlight, Pings, OnWire, Heard, Up, Asked, OrderlyStep, HeardStep, AskedStep, UpStep;
    hide InFlightStep;
    var read := before + [e];
    Step(before, e);
    if more == [] {
      assert read + more == read;
    } else {
      Step(read, more[0]);
      assert read + more == read + [more[0]];
    }
    Step(read + more, Sent([h, 2, a, b], 4));
    assert [h, 2, a, b][..4] == [h, 2, a, b];
    assert OnWire(before) + [] + [] + [h, 2, a, b] == OnWire(before) + [h, 2, a, b];
  }

  /** A QoS 2 message comes, and is dealt with. */
  method TakePublish(client: Client, size: nat, flags: nat, topic: bytes, a: byte, b: byte, payload: bytes,
                     ghost later: bytes)
    requires Ready(client, size) && flags < 16 && flags / 2 % 4 == 2 && |topic| < 65536
    requires |PublishContent(flags, topic, a, b, payload)| <= MAX_VALUE
    requires var f := PublishFrame(flags, topic, a, b, payload); |f| <= size && client.source.stream == f + later
    requires |Open(client.log)| < 10 && 256 * (a as int) + b as int != 0
    modifies Footprint(client)
    ensures Ready(client, size) && client.source.stream == later
    ensures TookPublish(old(client.log), client.log, flags, topic, a, b, payload)
    ensures Open(client.log) == Open(old(client.log)) + {256 * (a as int) + b as int}
    ensures client.wire.sent == old(client.wire.sent) + [80, 2, a, b]
  {
    hide Tracks, Open, InFlight, Settled, Heard, Up, Pings, Passed, Begins, CutOffTo, Taken, PacketType, Encode;
    hide PublishContent, Grew, OnWire, TookPublish;
    ghost var body := PublishContent(flags, topic, a, b, payload);
    FrameAhead(48 + flags, body, later, size);
    TracksSays(client.log, client.table.Ids(), client.pingOutstanding, client.wire.sent, client.Held());
    ghost var before := client.log;
    var rc;
    ghost var pass;
    rc, pass := client.Cycle();
    ghost var buf := client.readbuf[..];
    assert buf[0] == PublishFrame(flags, topic, a, b, payload)[0];
    PublishPass(before, client.log, Taken(old(client.source.stream), later), buf, pass, client.Fixed(),
                flags, topic, a, b, payload);
    TracksSays(client.log, client.table.Ids(), client.pingOutstanding, client.wire.sent, client.Held());
  }

  method TakePubrel(client: Client, size: nat, a: byte, b: byte, ghost later: bytes)
    requires Ready(client, size) && client.source.stream == [98, 2, a, b] + later
    requires 256 * (a as int) + b as int in Open(client.log)
    modifies Footprint(client)
    ensures Ready(client, size) && client.source.stream == later
    ensures TookPubrel(old(client.log), client.log, a, b)
    ensures Open(client.log) == Open(old(client.log)) - {256 * (a as int) + b as int}
    ensures client.wire.sent == old(client.wire.sent) + [112, 2, a, b]
  {
    hide Tracks, Open, InFlight, Settled, Heard, Up, Pings, Passed, Begins, CutOffTo, Taken, PacketType, NoAck;
    hide Grew, OnWire, TookPubrel;
    FourAhead(98, a, b, later, size);
    TracksSays(client.log, client.table.Ids(), client.pingOutstanding, client.wire.sent, client.Held());
    ghost var before := client.log;
    var rc;
    ghost var pass;
    rc, pass := client.Cycle();
    ghost var buf := client.readbuf[..];
    HoldsPrefix(buf, [98, 2, a, b]);
    AckNamed(buf, 98, a, b, 6, 256 * (a as int) + b as int);
    AckRead(buf, 98, a, b);
    PubrelPass(before, client.log, Taken(old(client.source.stream), later), buf, pass, client.Fixed(), a, b);
    TracksSays(client.log, client.table.Ids(), client.pingOutstanding, client.wire.sent, client.Held());
  }

  /** A QoS 2 message that comes twice, as the broker sends it again when it misses the PUBREC, and its PUBREL:
      the message is delivered once, each packet is answered, and in the end its identifier is free. */
  method MessageComesTwice(size: nat, options: C.Options, flags: byte, topic: bytes, a: byte, b: byte,
                           payload: bytes, retained: bool, later: bytes)
    returns (free: bool, sent: bytes, left: bytes, ghost log: Log)
    requires Usable(options, size) && |topic| < 65536 && 256 * (a as int) + b as int != 0
    requires |PublishContent(4, topic, a, b, payload)| <= MAX_VALUE
    requires |PublishFrame(4, topic, a, b, payload)| <= size
    ensures free && left == later
    ensures sent == C.ConnectBytes(options) + [80, 2, a, b] + [80, 2, a, b] + [112, 2, a, b]
    ensures exists i :: 0 <= i < |log| && DeliversOnly(log, i, topic, payload)
  {
    hide Tracks, Open, InFlight, Settled, Heard, Up, C.ConnectBytes, C.VariableHeader, C.Payload, PacketLen, Pings;
    hide Encode, Usable, TookPublish, TookPubrel, PublishContent, Text, Began;
    var id := 256 * (a as int) + b as int;
    var last: nat := if retained then 1 else 0;
    var first, again := PublishFrame(4 + last, topic, a, b, payload), PublishFrame(12 + last, topic, a, b, payload);
    SameSize(4, 4 + last, topic, a, b, payload);
    SameSize(4, 12 + last, topic, a, b, payload);
    var coming := first + (again + ([98, 2, a, b] + later));
    var client, _ := Begin(size, options, flags, 0, coming);
    ghost var l0 := client.log;
    TakePublish(client, size, 4 + last, topic, a, b, payload, again + ([98, 2, a, b] + later));
    ghost var l1 := client.log;
    TakePublish(client, size, 12 + last, topic, a, b, payload, [98, 2, a, b] + later);
    ghost var l2 := client.log;
    TakePubrel(client, size, a, b, later);
    log := client.log;
    TracksSays(client.log, client.table.Ids(), client.pingOutstanding, client.wire.sent, client.Held());
    free := client.table.IsFree(id);
    sent, left := client.wire.sent, client.source.stream;
    OneDelivery(l0, C.ConnectBytes(options), l1, l2, log, last, topic, a, b, payload);
  }

  /** The only delivery in a history, of QoS 2. */
  ghost predicate DeliversOnly(log: Log, i: nat, topic: bytes, payload: bytes)
    requires i < |log|
  {
    && log[i].Delivered? && log[i].message.qos == 2
    && log[i].message.topic == topic && log[i].message.payload == payload
    && forall k :: 0 <= k < |log| && log[k].Delivered? ==> k == i
  }

  lemma SameSize(flags: nat, flags': nat, topic: bytes, a: byte, b: byte, payload: bytes)
    requires flags < 16 && flags' < 16 && |topic| < 65536 && flags / 2 % 4 == flags' / 2 % 4
    ensures PublishContent(flags', topic, a, b, payload) == PublishContent(flags, topic, a, b, payload)
    ensures |PublishFrame(flags', topic, a, b, payload)| == |PublishFrame(flags, topic, a, b, payload)|
  {
    hide Encode, Text;
  }

  lemma OneDelivery(l0: Log, packet: bytes, l1: Log, l2: Log, l3: Log, last: nat,
                    topic: bytes, a: byte, b: byte, payload: bytes)
    requires Began(l0, packet, 0) && Open(l0) == {} && 256 * (a as int) + b as int in Open(l1)
    requires TookPublish(l0, l1, 4 + last, topic, a, b, payload)
    requires TookPublish(l1, l2, 12 + last, topic, a, b, payload)
    requires TookPubrel(l2, l3, a, b)
    ensures exists i :: 0 <= i < |l3| && DeliversOnly(l3, i, topic, payload)
  {
    hide Open;
    assert |l0| == 3 && |l1| == 6 && |l2| == 8 && |l3| == 11;
    assert DeliversOnly(l3, 4, topic, payload);
  }
}
